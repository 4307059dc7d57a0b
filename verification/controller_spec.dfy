/**
 * The interaction engine of `MezzureEventHandler` as functions on values:
 * selection, the gaps between live intervals, the two drag kinds and one
 * step of the state machine per mouse event.
 *
 * The drawing context appears only through `lineStart`/`lineEnd` (its
 * `getStart()`/`getEnd()`) and through the two coordinates each event
 * already carries: `position` (`getPoint(x, y, false)`, possibly null) and
 * `fitPosition` (`getPoint(x, y, true)`, never null).
 */
module ControllerSpec {
  import opened Wrappers
  import opened JavaInt
  import opened Model
  import opened IntervalSet
  import opened Collections

  const IntervalToleranceSpan := 10
  const PointToleranceSpan := 10

  datatype Cursor = Default | Move | HResize

  /** The mouse event kinds the handler tells apart; `Other` stands for moves, drags and the rest. */
  datatype EventType = Pressed | Released | Clicked | Other

  datatype MouseEvent = MouseEvent(eventType: EventType, clickCount: int, position: Option<Point>, fitPosition: Point)

  /** Calls of the `ChangeListener`. */
  datatype Notification =
    | Changed(before: Option<Interval>, after: Option<Interval>)   // onChange
    | Dragged(previous: Option<Interval>, next: Interval)          // onDrag

  // ---------------------------------------------------------------------
  // Selection

  /** `a.distance(b)` for two points. */
  function PointDistance(a: Point, b: Point): nat
  {
    Abs(b.x - a.x)
  }

  /** `interval.distance(point)`: how far the point lies outside the interval's closed span. */
  function IntervalDistance(interval: Interval, point: Point): nat
  {
    if point.x < interval.start.x then interval.start.x - point.x
    else if point.x > interval.end.x then point.x - interval.end.x
    else 0
  }

  /** The closed forms agree with the distances of `Element1D`, in either direction. */
  lemma DistancesSpec(interval: Interval, a: Point, b: Point)
    ensures PointDistance(a, b) == PointElement(a).Distance(PointElement(b)) == PointElement(b).Distance(PointElement(a))
    ensures IntervalDistance(interval, a) == IntervalElement(interval).Distance(PointElement(a))
    ensures IntervalDistance(interval, a) == PointElement(a).Distance(IntervalElement(interval))
  {
    PointOverlapsAndDisplacement(a, b);
    PointOverlapsAndDisplacement(b, a);
    var i, p := IntervalElement(interval), PointElement(a);
    DisplacementSpec(i, p);
    DisplacementSpec(p, i);
    DistanceSpec(i, p);
    PointInInterval(a, interval);
  }

  /** What a pointer designates: an interval's body, or one of its boundaries. */
  datatype Selection = IntervalSelection(interval: Interval) | PointSelection(point: Point, parent: Interval) {
    function Selected(): Element1D
    {
      match this
      case IntervalSelection(i) => IntervalElement(i)
      case PointSelection(p, _) => PointElement(p)
    }

    /** `selected().distance(point)`. */
    function Distance(point: Point): nat
    {
      match this
      case IntervalSelection(i) => IntervalDistance(i, point)
      case PointSelection(p, _) => PointDistance(p, point)
    }
  }

  lemma SelectionDistanceSpec(selection: Selection, point: Point)
    ensures selection.Distance(point) == selection.Selected().Distance(PointElement(point))
  {
    match selection
    case IntervalSelection(i) => DistancesSpec(i, point, point);
    case PointSelection(p, parent) => DistancesSpec(parent, p, point);
  }

  /** `interval.overlaps(point) || point.distance(interval) <= intervalToleranceSpan`. */
  predicate InReach(interval: Interval, point: Point)
  {
    (interval.start.x <= point.x <= interval.end.x) || IntervalDistance(interval, point) <= IntervalToleranceSpan
  }

  /** The element of `interval` the pointer designates: a boundary strictly nearer than the other and within tolerance, else the body. */
  function Candidate(interval: Interval, point: Point): Selection
  {
    var distanceToStart := PointDistance(interval.start, point);
    var distanceToEnd := PointDistance(interval.end, point);
    if distanceToStart < distanceToEnd && distanceToStart <= PointToleranceSpan then PointSelection(interval.start, interval)
    else if distanceToStart > distanceToEnd && distanceToEnd <= PointToleranceSpan then PointSelection(interval.end, interval)
    else IntervalSelection(interval)
  }

  /** One iteration of `getSelection`: a candidate replaces the running selection only when strictly closer. */
  function Consider(current: Option<Selection>, interval: Interval, point: Point): Option<Selection>
  {
    if InReach(interval, point) then
      var selected := Candidate(interval, point);
      if current.None? || current.value.Distance(point) > selected.Distance(point) then Some(selected) else current
    else current
  }

  /** The running selection after the first `n` live intervals. */
  function SelectionUpTo(s: seq<Interval>, point: Point, n: nat): Option<Selection>
    requires n <= |s|
  {
    if n == 0 then None else Consider(SelectionUpTo(s, point, n - 1), s[n - 1], point)
  }

  /** `getSelection(point)`. */
  function SelectionAt(s: seq<Interval>, point: Point): Option<Selection>
  {
    SelectionUpTo(s, point, |s|)
  }

  /** The position of the interval the running selection comes from, or -1. */
  ghost function SelectedIndex(s: seq<Interval>, point: Point, n: nat): int
    requires n <= |s|
  {
    if n == 0 then -1
    else if SelectionUpTo(s, point, n) != SelectionUpTo(s, point, n - 1) then n - 1
    else SelectedIndex(s, point, n - 1)
  }

  /** `InReach` is being within the tolerance of the interval's closed span. */
  lemma InReachSpec(interval: Interval, point: Point)
    ensures InReach(interval, point) <==>
      IntervalElement(interval).Overlaps(PointElement(point)) || PointElement(point).Distance(IntervalElement(interval)) <= IntervalToleranceSpan
    ensures InReach(interval, point) <==>
      interval.start.x - IntervalToleranceSpan <= point.x <= interval.end.x + IntervalToleranceSpan
  {
    DistancesSpec(interval, point, point);
    PointInInterval(point, interval);
  }

  /**
   * A boundary is designated only when it is within tolerance and strictly
   * nearer than the other boundary; `notSelected` then yields the other one.
   */
  lemma CandidateSpec(interval: Interval, point: Point)
    ensures Candidate(interval, point).PointSelection? ==>
      var b := Candidate(interval, point).point;
      var other := if b == interval.start then interval.end else interval.start;
      && Candidate(interval, point).parent == interval
      && (b == interval.start || b == interval.end)
      && Abs(point.x - b.x) <= PointToleranceSpan
      && Abs(point.x - b.x) < Abs(point.x - other.x)
      && NotSelected(b, interval) == Success(other)
    ensures Candidate(interval, point).IntervalSelection? ==>
      && Candidate(interval, point).interval == interval
      && (Abs(point.x - interval.start.x) == Abs(point.x - interval.end.x)
          || Min(Abs(point.x - interval.start.x), Abs(point.x - interval.end.x)) > PointToleranceSpan)
  {
  }

  /** How far the candidate of `interval` is from `point`: what `getSelection` minimises. */
  function Score(interval: Interval, point: Point): int
  {
    Candidate(interval, point).Distance(point)
  }

  /**
   * The selection is `null` exactly when no interval is in reach; otherwise
   * it is the candidate of an interval in reach whose distance no other
   * candidate beats, and that strictly beats every earlier candidate.
   */
  lemma {:induction false} SelectionUpToSpec(s: seq<Interval>, point: Point, n: nat)
    requires n <= |s|
    ensures -1 <= SelectedIndex(s, point, n) < n
    ensures SelectionUpTo(s, point, n).None? <==> SelectedIndex(s, point, n) == -1
    ensures SelectionUpTo(s, point, n).None? <==> forall i :: 0 <= i < n ==> !InReach(s[i], point)
    ensures SelectionUpTo(s, point, n).Some? ==>
      var k := SelectedIndex(s, point, n);
      && InReach(s[k], point)
      && SelectionUpTo(s, point, n).value == Candidate(s[k], point)
      && (forall i :: 0 <= i < n && InReach(s[i], point) ==> Score(s[k], point) <= Score(s[i], point))
      && (forall i :: 0 <= i < k && InReach(s[i], point) ==> Score(s[k], point) < Score(s[i], point))
  {
    if n > 0 {
      SelectionUpToSpec(s, point, n - 1);
      var prev := SelectionUpTo(s, point, n - 1);
      var r := SelectionUpTo(s, point, n);
      var j := SelectedIndex(s, point, n - 1);
      if prev.Some? {
        assert prev.value.Distance(point) == Score(s[j], point);
      }
      if r != prev {
        assert InReach(s[n - 1], point) && r == Some(Candidate(s[n - 1], point));
        assert prev.Some? ==> Score(s[j], point) > Score(s[n - 1], point);
      } else if prev.None? {
        assert !InReach(s[n - 1], point);
      } else {
        assert InReach(s[n - 1], point) ==> Score(s[j], point) <= Score(s[n - 1], point);
      }
    }
  }

  /** `getSelection` over the whole live set: its result always comes from a live interval. */
  lemma SelectionSpec(s: seq<Interval>, point: Point)
    ensures SelectionAt(s, point).None? <==> forall i :: 0 <= i < |s| ==> !InReach(s[i], point)
    ensures SelectionAt(s, point).Some? ==>
      var k := SelectedIndex(s, point, |s|);
      var selection := SelectionAt(s, point);
      && 0 <= k < |s|
      && InReach(s[k], point)
      && selection.value == Candidate(s[k], point)
      && (selection.value.IntervalSelection? ==> selection.value.interval == s[k])
      && (selection.value.PointSelection? ==>
            selection.value.parent == s[k] && NotSelected(selection.value.point, selection.value.parent).Success?)
      && (forall i :: 0 <= i < |s| && InReach(s[i], point) ==> selection.value.Distance(point) <= Candidate(s[i], point).Distance(point))
  {
    SelectionUpToSpec(s, point, |s|);
    if SelectionAt(s, point).Some? {
      CandidateSpec(s[SelectedIndex(s, point, |s|)], point);
    }
  }

  /** `PointSelection.notSelected()`: the boundary of `parent` that was not selected. */
  function NotSelected(selected: Point, parent: Interval): (r: Result<Point>)
    ensures r.Success? <==> selected == parent.start || selected == parent.end
    ensures r.Success? ==> {r.value, selected} == {parent.start, parent.end}
  {
    if parent.start == selected then Success(parent.end)
    else if parent.end == selected then Success(parent.start)
    else Failure(NoSuchElement)
  }

  /** The cursor shown while not dragging: resize over a boundary, move over a body, default elsewhere. */
  function CursorFor(s: seq<Interval>, position: Option<Point>): Cursor
  {
    if position.None? then Default
    else match SelectionAt(s, position.value)
      case Some(PointSelection(_, _)) => HResize
      case Some(IntervalSelection(_)) => Move
      case None => Default
  }

  // ---------------------------------------------------------------------
  // Gaps

  /** `getIntervalInBetween(prev, next)`: the free space strictly between two neighbours, or null. */
  function IntervalInBetween(lineStart: Point, lineEnd: Point, prev: Option<Interval>, next: Option<Interval>): Option<Interval>
  {
    var a := if prev.None? then lineStart else prev.value.end.Move(1);
    var b := if next.None? then lineEnd else next.value.start.Move(-1);
    if a.CompareTo(b) >= 0 then None
    else
      var gap: Interval := Span(a, b);
      Some(gap)
  }

  /** The gap before position `k` of `s`: window `k` of `slideWindow(s, 2, 1)`. */
  function Gap(lineStart: Point, lineEnd: Point, s: seq<Interval>, k: nat): Option<Interval>
    requires k <= |s|
  {
    IntervalInBetween(lineStart, lineEnd, SlotAt(s, k - 1), SlotAt(s, k))
  }

  /**
   * A gap runs from one past its left neighbour's end (or the line's start)
   * to one before its right neighbour's start (or the line's end), is null
   * when that is empty or a single point, and meets no interval of a
   * separated sequence.
   */
  lemma GapSpec(lineStart: Point, lineEnd: Point, s: seq<Interval>, k: nat)
    requires k <= |s|
    ensures var a := if k == 0 then lineStart.x else s[k - 1].end.x + 1;
      var b := if k == |s| then lineEnd.x else s[k].start.x - 1;
      && (Gap(lineStart, lineEnd, s, k).Some? <==> a < b)
      && (Gap(lineStart, lineEnd, s, k).Some? ==>
           Gap(lineStart, lineEnd, s, k).value.start.x == a && Gap(lineStart, lineEnd, s, k).value.end.x == b)
    ensures Separated(s) && Gap(lineStart, lineEnd, s, k).Some? ==>
      forall j :: 0 <= j < |s| ==> !Meet(s[j], Gap(lineStart, lineEnd, s, k).value)
  {
    if Separated(s) && Gap(lineStart, lineEnd, s, k).Some? {
      var g := Gap(lineStart, lineEnd, s, k).value;
      forall j | 0 <= j < |s|
        ensures !Meet(s[j], g)
      {
        if j < k - 1 {
          assert s[j].end.x < s[k - 1].start.x;
        } else if j > k {
          assert s[k].end.x < s[j].start.x;
        }
      }
    }
  }

  /** The labels of the free space between neighbours: `new Interval(prev.end, next.start)` never throws on a separated set. */
  lemma BlankIntervalsDefined(s: seq<Interval>, k: nat)
    requires Separated(s) && k + 1 < |s|
    ensures NewInterval(s[k].end, s[k + 1].start).Success?
  {
  }

  /** The point lies in the closed span of `space`: `space.overlaps(point)`, by `ContainsSpec`. */
  predicate Contains(space: Interval, point: Point)
  {
    space.start.x <= point.x <= space.end.x
  }

  lemma ContainsSpec(space: Interval, point: Point)
    ensures Contains(space, point) <==> IntervalElement(space).Overlaps(PointElement(point))
  {
    PointInInterval(point, space);
  }

  /** The loop of `getResizeEvent` from window `k` on: the first gap holding `dragStart` starts a resize. */
  function ResizeEventFrom(lineStart: Point, lineEnd: Point, dragStart: Point, origin: Option<Interval>, remaining: seq<Interval>, k: nat): Option<DragState>
    requires k <= |remaining| + 1
    decreases |remaining| + 1 - k
  {
    if k == |remaining| + 1 then None
    else match Gap(lineStart, lineEnd, remaining, k)
      case Some(space) =>
        if Contains(space, dragStart) then Some(ResizeDrag(dragStart, space, origin, origin))
        else ResizeEventFrom(lineStart, lineEnd, dragStart, origin, remaining, k + 1)
      case None => ResizeEventFrom(lineStart, lineEnd, dragStart, origin, remaining, k + 1)
  }

  /** One window of the loop of `getResizeEvent`: the gap `space` before position `k` either starts the resize or is passed over. */
  lemma ResizeEventStep(lineStart: Point, lineEnd: Point, dragStart: Point, origin: Option<Interval>, remaining: seq<Interval>, k: nat, space: Option<Interval>)
    requires k <= |remaining| && space == Gap(lineStart, lineEnd, remaining, k)
    ensures space.Some? && Contains(space.value, dragStart) ==>
      ResizeEventFrom(lineStart, lineEnd, dragStart, origin, remaining, k) == Some(ResizeDrag(dragStart, space.value, origin, origin))
    ensures !(space.Some? && Contains(space.value, dragStart)) ==>
      ResizeEventFrom(lineStart, lineEnd, dragStart, origin, remaining, k) == ResizeEventFrom(lineStart, lineEnd, dragStart, origin, remaining, k + 1)
  {
  }

  /** `getResizeEvent(dragStart, origin, remaining)`. */
  function ResizeEventFor(lineStart: Point, lineEnd: Point, dragStart: Point, origin: Option<Interval>, remaining: seq<Interval>): Option<DragState>
  {
    ResizeEventFrom(lineStart, lineEnd, dragStart, origin, remaining, 0)
  }

  /**
   * A resize starts exactly when some gap of `remaining` holds `dragStart`;
   * its drag space then holds `dragStart` and meets no interval of
   * `remaining`, and its working interval is the origin.
   */
  lemma {:induction false} ResizeEventFromSpec(lineStart: Point, lineEnd: Point, dragStart: Point, origin: Option<Interval>, remaining: seq<Interval>, k: nat)
    requires k <= |remaining| + 1
    decreases |remaining| + 1 - k
    ensures var r := ResizeEventFrom(lineStart, lineEnd, dragStart, origin, remaining, k);
      && (r.None? <==> forall j :: k <= j <= |remaining| ==>
            Gap(lineStart, lineEnd, remaining, j).None? || !Contains(Gap(lineStart, lineEnd, remaining, j).value, dragStart))
      && (r.Some? ==>
            && r.value.ResizeDrag?
            && r.value.dragStart == dragStart && r.value.resizeOrigin == origin && r.value.resizeResult == origin
            && Contains(r.value.dragSpace, dragStart)
            && (Separated(remaining) ==> forall j :: 0 <= j < |remaining| ==> !Meet(remaining[j], r.value.dragSpace)))
  {
    if k < |remaining| + 1 {
      ResizeEventFromSpec(lineStart, lineEnd, dragStart, origin, remaining, k + 1);
      GapSpec(lineStart, lineEnd, remaining, k);
    }
  }

  // ---------------------------------------------------------------------
  // Drags

  /**
   * An active drag: a `Move` of an existing interval, or a `Resize` of one
   * (its origin is the interval, its anchor the fixed boundary) or the
   * creation of a new one (no origin).
   */
  datatype DragState =
    | MoveDrag(dragStart: Point, origin: Interval, remaining: seq<Interval>, interval: Interval)
    | ResizeDrag(dragStart: Point, dragSpace: Interval, resizeOrigin: Option<Interval>, resizeResult: Option<Interval>)
  {
    /** `origin()`. */
    function Origin(): Option<Interval>
    {
      match this
      case MoveDrag(_, origin, _, _) => Some(origin)
      case ResizeDrag(_, _, origin, _) => origin
    }

    /** `result()`. */
    function Result(): Option<Interval>
    {
      match this
      case MoveDrag(_, _, _, interval) => Some(interval)
      case ResizeDrag(_, _, _, interval) => interval
    }
  }

  /** The clamped displacement of a move: the origin cannot pass the line's start or end. */
  function ClampDisplacement(lineStart: Point, lineEnd: Point, origin: Interval, displacement: int): int
  {
    if displacement < 0 then Max(displacement, PointElement(origin.start).Displacement(PointElement(lineStart)))
    else Min(displacement, PointElement(origin.end).Displacement(PointElement(lineEnd)))
  }

  /**
   * For an origin on the line, the clamped move keeps it on the line, goes
   * in the requested direction no further than requested, and is the
   * requested one whenever that already stays on the line.
   */
  lemma ClampDisplacementSpec(lineStart: Point, lineEnd: Point, origin: Interval, displacement: int)
    requires lineStart.x <= origin.start.x && origin.end.x <= lineEnd.x
    ensures var d := ClampDisplacement(lineStart, lineEnd, origin, displacement);
      && lineStart.x <= origin.start.x + d && origin.end.x + d <= lineEnd.x
      && (displacement < 0 ==> displacement <= d <= 0)
      && (displacement >= 0 ==> 0 <= d <= displacement)
      && (lineStart.x <= origin.start.x + displacement && origin.end.x + displacement <= lineEnd.x ==> d == displacement)
  {
    PointOverlapsAndDisplacement(origin.start, lineStart);
    PointOverlapsAndDisplacement(origin.end, lineEnd);
  }

  /** `origin.move(d)`. */
  function Moved(origin: Interval, d: int): (r: Interval)
    ensures r.start.x == origin.start.x + d && r.end.x == origin.end.x + d
  {
    origin.Move(d)
  }

  /** One iteration of `getClosestOverlappingInterval`: a later overlap replaces only when its centre is strictly closer. */
  function ConsiderBlocker(current: Option<Interval>, interval: Interval, updated: Interval): Option<Interval>
  {
    if Meet(interval, updated)
      && (current.None? || Abs(updated.Center() - current.value.Center()) > Abs(updated.Center() - interval.Center()))
    then Some(interval)
    else current
  }

  function ClosestOverlapUpTo(remaining: seq<Interval>, updated: Interval, n: nat): Option<Interval>
    requires n <= |remaining|
  {
    if n == 0 then None else ConsiderBlocker(ClosestOverlapUpTo(remaining, updated, n - 1), remaining[n - 1], updated)
  }

  /** `getClosestOverlappingInterval(updated)`: the blocker. */
  function ClosestOverlap(remaining: seq<Interval>, updated: Interval): Option<Interval>
  {
    ClosestOverlapUpTo(remaining, updated, |remaining|)
  }

  /** The position the running blocker comes from, or -1. */
  ghost function BlockerIndex(remaining: seq<Interval>, updated: Interval, n: nat): int
    requires n <= |remaining|
  {
    if n == 0 then -1
    else if ClosestOverlapUpTo(remaining, updated, n) != ClosestOverlapUpTo(remaining, updated, n - 1) then n - 1
    else BlockerIndex(remaining, updated, n - 1)
  }

  /**
   * The blocker is null exactly when nothing overlaps; otherwise it is an
   * overlapping interval whose centre is as close as any other's.
   */
  lemma {:induction false} ClosestOverlapUpToSpec(remaining: seq<Interval>, updated: Interval, n: nat)
    requires n <= |remaining|
    ensures -1 <= BlockerIndex(remaining, updated, n) < n
    ensures ClosestOverlapUpTo(remaining, updated, n).None? <==> BlockerIndex(remaining, updated, n) == -1
    ensures ClosestOverlapUpTo(remaining, updated, n).None? <==> forall j :: 0 <= j < n ==> !Meet(remaining[j], updated)
    ensures ClosestOverlapUpTo(remaining, updated, n).Some? ==>
      var k := BlockerIndex(remaining, updated, n);
      && remaining[k] == ClosestOverlapUpTo(remaining, updated, n).value
      && Meet(remaining[k], updated)
      && forall j :: 0 <= j < n && Meet(remaining[j], updated) ==>
           Abs(updated.Center() - remaining[k].Center()) <= Abs(updated.Center() - remaining[j].Center())
  {
    if n > 0 {
      ClosestOverlapUpToSpec(remaining, updated, n - 1);
    }
  }

  /**
   * The first wins on ties: the blocker's centre is strictly closer than
   * that of every overlapping interval before it.
   */
  lemma {:induction false} ClosestOverlapFirstOnTies(remaining: seq<Interval>, updated: Interval, n: nat)
    requires n <= |remaining|
    ensures ClosestOverlapUpTo(remaining, updated, n).Some? ==>
      var k := BlockerIndex(remaining, updated, n);
      0 <= k < n && forall j :: 0 <= j < k && Meet(remaining[j], updated) ==>
        Abs(updated.Center() - remaining[k].Center()) < Abs(updated.Center() - remaining[j].Center())
  {
    if n > 0 {
      ClosestOverlapFirstOnTies(remaining, updated, n - 1);
      ClosestOverlapUpToSpec(remaining, updated, n - 1);
      ClosestOverlapUpToSpec(remaining, updated, n);
    }
  }

  /** The first position of `interval` in `s`, or `|s|`: where the window loop meets the blocker. */
  function IndexOf(s: seq<Interval>, interval: Interval): (k: nat)
    ensures k <= |s|
    ensures k < |s| ==> s[k] == interval
    ensures k == |s| <==> interval !in s
    ensures forall j :: 0 <= j < k ==> s[j] != interval
  {
    if |s| == 0 then 0
    else if s[0] == interval then 0
    else 1 + IndexOf(s[1..], interval)
  }

  /**
   * The body of the window loop of `adjustIntervalOnOverlap` at the blocker:
   * put the moved interval immediately left of the blocker when the pointer
   * is left of the blocker's centre and it fits there, immediately right of
   * it when the pointer is not and it fits there, else keep `current`.
   */
  function Place(lineStart: Point, lineEnd: Point, prev: Option<Interval>, blocker: Interval, next: Option<Interval>,
                 current: Interval, updated: Interval, dragEnd: Point): Interval
  {
    if blocker.Center() > dragEnd.Center() then
      var lastLeftSpot := if prev.None? then lineStart else prev.value.end.Move(1);
      if PointElement(lastLeftSpot).Displacement(PointElement(blocker.start)) > updated.Length() then
        NewInterval(blocker.start.Move(-updated.Length() - 1), blocker.start.Move(-1)).value
      else current
    else
      var lastRightSpot := if next.None? then lineEnd else next.value.start.Move(-1);
      if PointElement(blocker.end).Displacement(PointElement(lastRightSpot)) > updated.Length() then
        NewInterval(blocker.end.Move(updated.Length() + 1), blocker.end.Move(1)).value
      else current
  }

  /** `adjustIntervalOnOverlap(updated, dragEnd)`. */
  function AdjustOnOverlap(lineStart: Point, lineEnd: Point, remaining: seq<Interval>, current: Interval,
                           updated: Interval, dragEnd: Point): Interval
  {
    match ClosestOverlap(remaining, updated)
    case None => updated
    case Some(blocker) =>
      var k := IndexOf(remaining, blocker);
      if k == |remaining| then updated
      else Place(lineStart, lineEnd, SlotAt(remaining, k - 1), remaining[k], SlotAt(remaining, k + 1), current, updated, dragEnd)
  }

  /** The window loop of `adjustIntervalOnOverlap` meets the blocker at its first position `k`. */
  lemma AdjustAt(lineStart: Point, lineEnd: Point, remaining: seq<Interval>, current: Interval, updated: Interval, dragEnd: Point, k: nat)
    requires ClosestOverlap(remaining, updated).Some? && k < |remaining|
    requires remaining[k] == ClosestOverlap(remaining, updated).value
    requires forall j :: 0 <= j < k ==> remaining[j] != remaining[k]
    ensures AdjustOnOverlap(lineStart, lineEnd, remaining, current, updated, dragEnd)
      == Place(lineStart, lineEnd, SlotAt(remaining, k - 1), remaining[k], SlotAt(remaining, k + 1), current, updated, dragEnd)
  {
  }

  /** `IntervalMove.updated(dragEnd)`. */
  function MoveUpdate(lineStart: Point, lineEnd: Point, d: DragState, dragEnd: Point): Interval
    requires d.MoveDrag?
  {
    var displacement := PointElement(d.dragStart).Displacement(PointElement(dragEnd));
    var clamped := ClampDisplacement(lineStart, lineEnd, d.origin, displacement);
    AdjustOnOverlap(lineStart, lineEnd, d.remaining, d.interval, Moved(d.origin, clamped), dragEnd)
  }

  /** The span of length `len` ending one unit left of `blocker`. */
  function LeftSlot(blocker: Interval, len: int): Span
  {
    Span(Point(blocker.start.x - len - 1), Point(blocker.start.x - 1))
  }

  /** The span of length `len` starting one unit right of `blocker`. */
  function RightSlot(blocker: Interval, len: int): Span
  {
    Span(Point(blocker.end.x + 1), Point(blocker.end.x + len + 1))
  }

  /** The left slot of `s[k]` is free: it starts on the line when `s[k]` is first, and clears `s[k - 1]` otherwise. */
  predicate FitsLeft(lineStart: Point, s: seq<Interval>, k: nat, len: int)
    requires k < |s|
  {
    var slot := LeftSlot(s[k], len);
    if k == 0 then lineStart.x <= slot.start.x
    else slot.start.x > s[k - 1].end.x || s[k - 1].start.x > slot.end.x
  }

  /** The right slot of `s[k]` is free: it ends on the line when `s[k]` is last, and clears `s[k + 1]` otherwise. */
  predicate FitsRight(lineEnd: Point, s: seq<Interval>, k: nat, len: int)
    requires k < |s|
  {
    var slot := RightSlot(s[k], len);
    if k + 1 == |s| then slot.end.x <= lineEnd.x
    else slot.start.x > s[k + 1].end.x || s[k + 1].start.x > slot.end.x
  }

  /** The two tests of `Place` are the fit predicates, and its two placements are the slots. */
  lemma PlaceSides(lineStart: Point, lineEnd: Point, s: seq<Interval>, k: nat, current: Interval, updated: Interval, dragEnd: Point)
    requires Separated(s) && k < |s|
    ensures var r := Place(lineStart, lineEnd, SlotAt(s, k - 1), s[k], SlotAt(s, k + 1), current, updated, dragEnd);
      var len := updated.Length();
      && (s[k].Center() > dragEnd.Center() ==> r == (if FitsLeft(lineStart, s, k, len) then LeftSlot(s[k], len) else current))
      && (s[k].Center() <= dragEnd.Center() ==> r == (if FitsRight(lineEnd, s, k, len) then RightSlot(s[k], len) else current))
  {
    var b := s[k];
    var len := updated.Length();
    IntervalLengthAndCenter(updated);
    if k > 0 {
      assert s[k - 1].end.x < b.start.x;
      var lastLeftSpot := s[k - 1].end.Move(1);
      PointOverlapsAndDisplacement(lastLeftSpot, b.start);
    } else {
      PointOverlapsAndDisplacement(lineStart, b.start);
    }
    if k + 1 < |s| {
      assert b.end.x < s[k + 1].start.x;
      var lastRightSpot := s[k + 1].start.Move(-1);
      PointOverlapsAndDisplacement(b.end, lastRightSpot);
    } else {
      PointOverlapsAndDisplacement(b.end, lineEnd);
    }
  }

  /**
   * Where a move blocked by `s[k]` lands: the slot left of the blocker when
   * the blocker's centre lies right of the pointer, the slot right of it
   * otherwise, each exactly when that slot is free, and `current` when it is
   * not. A placement keeps the moved interval's length and meets no
   * interval of the separated `s`; keeping `current` inherits both from it.
   */
  lemma PlaceSpec(lineStart: Point, lineEnd: Point, s: seq<Interval>, k: nat, current: Interval, updated: Interval, dragEnd: Point)
    requires Separated(s) && k < |s|
    ensures var r := Place(lineStart, lineEnd, SlotAt(s, k - 1), s[k], SlotAt(s, k + 1), current, updated, dragEnd);
      var len := updated.Length();
      && (s[k].Center() > dragEnd.Center() && FitsLeft(lineStart, s, k, len) ==> r == LeftSlot(s[k], len))
      && (s[k].Center() > dragEnd.Center() && !FitsLeft(lineStart, s, k, len) ==> r == current)
      && (s[k].Center() <= dragEnd.Center() && FitsRight(lineEnd, s, k, len) ==> r == RightSlot(s[k], len))
      && (s[k].Center() <= dragEnd.Center() && !FitsRight(lineEnd, s, k, len) ==> r == current)
    ensures var r := Place(lineStart, lineEnd, SlotAt(s, k - 1), s[k], SlotAt(s, k + 1), current, updated, dragEnd);
      && (r == current || (r.Length() == updated.Length() && (r.end.x == s[k].start.x - 1 || r.start.x == s[k].end.x + 1)))
      && ((forall j :: 0 <= j < |s| ==> !Meet(s[j], current)) ==> forall j :: 0 <= j < |s| ==> !Meet(s[j], r))
  {
    PlaceSides(lineStart, lineEnd, s, k, current, updated, dragEnd);
    var b := s[k];
    var len := updated.Length();
    var r := Place(lineStart, lineEnd, SlotAt(s, k - 1), b, SlotAt(s, k + 1), current, updated, dragEnd);
    if r != current {
      if b.Center() > dragEnd.Center() {
        var lastLeftSpot := if k == 0 then lineStart else s[k - 1].end.Move(1);
        PointOverlapsAndDisplacement(lastLeftSpot, b.start);
        assert r.start.x == b.start.x - len - 1 && r.end.x == b.start.x - 1;
        forall j | 0 <= j < |s|
          ensures !Meet(s[j], r)
        {
          if j < k - 1 {
            assert s[j].end.x < s[k - 1].start.x;
          } else if j > k {
            assert b.end.x < s[j].start.x;
          }
        }
      } else {
        var lastRightSpot := if k + 1 == |s| then lineEnd else s[k + 1].start.Move(-1);
        PointOverlapsAndDisplacement(b.end, lastRightSpot);
        assert r.start.x == b.end.x + 1 && r.end.x == b.end.x + len + 1;
        forall j | 0 <= j < |s|
          ensures !Meet(s[j], r)
        {
          if j > k + 1 {
            assert s[k + 1].end.x < s[j].start.x;
          } else if j < k {
            assert s[j].end.x < b.start.x;
          }
        }
      }
    }
  }

  /**
   * The overlap cascade: the tentative interval when nothing overlaps it;
   * otherwise the placement `PlaceSpec` describes at the blocker's position.
   * The result meets no remaining interval (given that the last accepted one
   * did not) and has the length of the tentative one, unless it is the last
   * accepted one.
   */
  lemma AdjustOnOverlapSpec(lineStart: Point, lineEnd: Point, remaining: seq<Interval>, current: Interval, updated: Interval, dragEnd: Point)
    requires Separated(remaining)
    ensures var r := AdjustOnOverlap(lineStart, lineEnd, remaining, current, updated, dragEnd);
      && (r == current || r.Length() == updated.Length())
      && ((forall j :: 0 <= j < |remaining| ==> !Meet(remaining[j], current)) ==> forall j :: 0 <= j < |remaining| ==> !Meet(remaining[j], r))
    ensures ClosestOverlap(remaining, updated).None? ==> AdjustOnOverlap(lineStart, lineEnd, remaining, current, updated, dragEnd) == updated
    ensures ClosestOverlap(remaining, updated).Some? ==>
      var blocker := ClosestOverlap(remaining, updated).value;
      var r := AdjustOnOverlap(lineStart, lineEnd, remaining, current, updated, dragEnd);
      && blocker in remaining && Meet(blocker, updated)
      && (r == current || (r.Length() == updated.Length() && (r.end.x == blocker.start.x - 1 || r.start.x == blocker.end.x + 1)))
    ensures ClosestOverlap(remaining, updated).Some? ==>
      var k := IndexOf(remaining, ClosestOverlap(remaining, updated).value);
      var r := AdjustOnOverlap(lineStart, lineEnd, remaining, current, updated, dragEnd);
      var len := updated.Length();
      && k < |remaining|
      && (remaining[k].Center() > dragEnd.Center() && FitsLeft(lineStart, remaining, k, len) ==> r == LeftSlot(remaining[k], len))
      && (remaining[k].Center() > dragEnd.Center() && !FitsLeft(lineStart, remaining, k, len) ==> r == current)
      && (remaining[k].Center() <= dragEnd.Center() && FitsRight(lineEnd, remaining, k, len) ==> r == RightSlot(remaining[k], len))
      && (remaining[k].Center() <= dragEnd.Center() && !FitsRight(lineEnd, remaining, k, len) ==> r == current)
  {
    ClosestOverlapUpToSpec(remaining, updated, |remaining|);
    match ClosestOverlap(remaining, updated)
    case None =>
    case Some(blocker) =>
      var k := IndexOf(remaining, blocker);
      PlaceSpec(lineStart, lineEnd, remaining, k, current, updated, dragEnd);
  }

  /**
   * A move keeps the origin's length and, when the working interval met no
   * remaining interval, the new one meets none either.
   */
  lemma MoveUpdateSpec(lineStart: Point, lineEnd: Point, d: DragState, dragEnd: Point)
    requires d.MoveDrag? && Separated(d.remaining) && d.interval.Length() == d.origin.Length()
    ensures MoveUpdate(lineStart, lineEnd, d, dragEnd).Length() == d.origin.Length()
    ensures (forall j :: 0 <= j < |d.remaining| ==> !Meet(d.remaining[j], d.interval)) ==>
      forall j :: 0 <= j < |d.remaining| ==> !Meet(d.remaining[j], MoveUpdate(lineStart, lineEnd, d, dragEnd))
  {
    var displacement := PointElement(d.dragStart).Displacement(PointElement(dragEnd));
    var clamped := ClampDisplacement(lineStart, lineEnd, d.origin, displacement);
    AdjustOnOverlapSpec(lineStart, lineEnd, d.remaining, d.interval, Moved(d.origin, clamped), dragEnd);
  }

  /** `fitToDragSpace(position)`: the position clamped into the drag space. */
  function FitToDragSpace(space: Interval, position: Point): Point
  {
    if position.CompareTo(space.start) < 0 then space.start
    else if position.CompareTo(space.end) > 0 then space.end
    else position
  }

  /** `IntervalResize.updated(dragEnd)`. */
  function ResizeUpdate(d: DragState, dragEnd: Point): Option<Interval>
    requires d.ResizeDrag?
  {
    var fitted := FitToDragSpace(d.dragSpace, dragEnd);
    if d.dragStart != fitted then Some(NewInterval(d.dragStart, fitted).value) else d.resizeResult
  }

  /** Clamping lands in the drag space and leaves points inside it alone. */
  lemma FitToDragSpaceSpec(space: Interval, position: Point)
    ensures space.start.x <= FitToDragSpace(space, position).x <= space.end.x
    ensures space.start.x <= position.x <= space.end.x ==> FitToDragSpace(space, position) == position
    ensures position.x < space.start.x ==> FitToDragSpace(space, position) == space.start
    ensures position.x > space.end.x ==> FitToDragSpace(space, position) == space.end
  {
  }

  /**
   * A resize yields the interval between the anchor and the clamped pointer,
   * which lies inside the drag space, or keeps the previous result when the
   * two coincide.
   */
  lemma ResizeUpdateSpec(d: DragState, dragEnd: Point)
    requires d.ResizeDrag? && Contains(d.dragSpace, d.dragStart)
    ensures var fitted := FitToDragSpace(d.dragSpace, dragEnd);
      var r := ResizeUpdate(d, dragEnd);
      && (fitted == d.dragStart ==> r == d.resizeResult)
      && (fitted != d.dragStart ==>
            && r.Some?
            && {r.value.start, r.value.end} == {d.dragStart, fitted}
            && d.dragSpace.start.x <= r.value.start.x && r.value.end.x <= d.dragSpace.end.x)
  {
    PointInInterval(d.dragStart, d.dragSpace);
    FitToDragSpaceSpec(d.dragSpace, dragEnd);
  }

  /** `dragEvent.updated(dragEnd)`, with the working interval stored back. */
  function Update(lineStart: Point, lineEnd: Point, d: DragState, dragEnd: Point): (r: DragState)
    ensures r.Origin() == d.Origin()
  {
    match d
    case MoveDrag(_, _, _, _) => d.(interval := MoveUpdate(lineStart, lineEnd, d, dragEnd))
    case ResizeDrag(_, _, _, _) => d.(resizeResult := ResizeUpdate(d, dragEnd))
  }

  /** `getDragEvent(dragStart)`: move a selected body, resize at a selected boundary, or create in a gap. */
  function DragEventFor(lineStart: Point, lineEnd: Point, s: seq<Interval>, dragStart: Point): Option<DragState>
  {
    match SelectionAt(s, dragStart)
    case None => ResizeEventFor(lineStart, lineEnd, dragStart, None, s)
    case Some(IntervalSelection(selected)) => Some(MoveDrag(dragStart, selected, Remove(s, selected), selected))
    case Some(PointSelection(selected, parent)) =>
      SelectionSpec(s, dragStart);
      var fixed := NotSelected(selected, parent).value;
      ResizeEventFor(lineStart, lineEnd, fixed, Some(parent), Remove(s, parent))
  }

  // ---------------------------------------------------------------------
  // The state machine

  /** The handler's fields, with the live set in iteration order. */
  datatype EngineState = EngineState(
    intervals: seq<Interval>,
    drag: Option<DragState>,
    cursor: Cursor,
    listening: bool,
    notifications: seq<Notification>)

  /** A fresh handler: no intervals, no drag, no listener. */
  function Initial(): EngineState
  {
    EngineState([], None, Default, false, [])
  }

  /** `setListener(listener)`: whether a listener is set from now on. */
  function SetListener(st: EngineState, listening: bool): EngineState
  {
    st.(listening := listening)
  }

  /** `addInterval(interval)`: `IllegalArgumentException` on overlap with a live interval. */
  function AddInterval(st: EngineState, interval: Interval): Result<EngineState>
  {
    if FirstOverlap(st.intervals, IntervalElement(interval)).Some? then Failure(IllegalArgument)
    else Success(st.(intervals := Insert(st.intervals, interval)))
  }

  /** A press while idle starts a drag at the resolved point, if any. */
  function Press(lineStart: Point, lineEnd: Point, st: EngineState, position: Option<Point>): EngineState
  {
    if position.Some? then st.(drag := DragEventFor(lineStart, lineEnd, st.intervals, position.value)) else st
  }

  /** A release ends the drag, reporting a result that differs from the origin. */
  function Release(st: EngineState): EngineState
    requires st.drag.Some?
  {
    var d := st.drag.value;
    var report := st.listening && d.Result().Some? && d.Result() != d.Origin();
    st.(drag := None, notifications := st.notifications + if report then [Changed(d.Origin(), d.Result())] else [])
  }

  /** A double click removes the first live interval holding the resolved point. */
  function DoubleClick(st: EngineState, position: Option<Point>): EngineState
  {
    if position.None? then st
    else match FirstOverlap(st.intervals, PointElement(position.value))
      case None => st
      case Some(interval) =>
        st.(intervals := Remove(st.intervals, interval),
            notifications := st.notifications + if st.listening then [Changed(Some(interval), None)] else [])
  }

  /** Any other event during a drag updates it and replaces the working interval in the live set. */
  function DragTo(lineStart: Point, lineEnd: Point, st: EngineState, dragEnd: Point): EngineState
    requires st.drag.Some?
  {
    var prev := st.drag.value.Result();
    var d := Update(lineStart, lineEnd, st.drag.value, dragEnd);
    match d.Result()
    case None => st.(drag := Some(d))
    case Some(next) =>
      st.(drag := Some(d),
          intervals := Replace(st.intervals, prev, next),
          notifications := st.notifications + if st.listening && Some(next) != prev then [Dragged(prev, next)] else [])
  }

  /** `intervals.remove(prev)` when there is a `prev`, then `intervals.add(next)`. */
  function Replace(s: seq<Interval>, prev: Option<Interval>, next: Interval): seq<Interval>
  {
    Insert(if prev.Some? then Remove(s, prev.value) else s, next)
  }

  /** `handle(event)`. */
  function Step(lineStart: Point, lineEnd: Point, st: EngineState, event: MouseEvent): EngineState
  {
    var handled :=
      if event.eventType == Pressed && st.drag.None? then Press(lineStart, lineEnd, st, event.position)
      else if event.eventType == Released && st.drag.Some? then Release(st)
      else if event.eventType == Clicked && event.clickCount == 2 then DoubleClick(st, event.position)
      else if st.drag.Some? then DragTo(lineStart, lineEnd, st, event.fitPosition)
      else st;
    if handled.drag.None? then handled.(cursor := CursorFor(handled.intervals, event.position)) else handled
  }

  /** The handler after a sequence of events. */
  function Run(lineStart: Point, lineEnd: Point, st: EngineState, events: seq<MouseEvent>): EngineState
    decreases |events|
  {
    if |events| == 0 then st else Run(lineStart, lineEnd, Step(lineStart, lineEnd, st, events[0]), events[1..])
  }

  // ---------------------------------------------------------------------
  // The invariant

  /** How an active drag relates to the live set. */
  predicate DragConsistent(intervals: seq<Interval>, d: DragState)
  {
    match d
    case MoveDrag(_, origin, remaining, interval) =>
      // the obstacles are separated, the working interval meets none of
      // them, and every other live interval is an obstacle
      && Separated(remaining)
      && interval.Length() == origin.Length()
      && (forall j :: 0 <= j < |remaining| ==> !Meet(remaining[j], interval))
      && (forall y :: y in intervals ==> y == interval || y in remaining)
    case ResizeDrag(dragStart, dragSpace, _, result) =>
      // the anchor lies in the drag space, no other live interval meets
      // the drag space, and none meets the working interval
      && Contains(dragSpace, dragStart)
      && (forall y :: y in intervals && Some(y) != result ==> !Meet(y, dragSpace))
      && (result.Some? ==> forall y :: y in intervals && y != result.value ==> !Meet(y, result.value))
  }

  /** The live set is sorted and pairwise disjoint, and an active drag is consistent with it. */
  predicate Inv(st: EngineState)
  {
    && Separated(st.intervals)
    && (st.drag.Some? ==> DragConsistent(st.intervals, st.drag.value))
  }

  lemma InitialInv()
    ensures Inv(Initial())
  {
  }

  /** Distinct members of a separated sequence neither meet nor share a start. */
  lemma SeparatedMembers(s: seq<Interval>, a: Interval, b: Interval)
    requires Separated(s) && a in s && b in s && a != b
    ensures !Meet(a, b) && a.start != b.start
  {
    var i :| 0 <= i < |s| && s[i] == a;
    var j :| 0 <= j < |s| && s[j] == b;
    if i < j {
      assert s[i].end.x < s[j].start.x;
    } else {
      assert s[j].end.x < s[i].start.x;
    }
  }

  /**
   * `addInterval` fails exactly when a live interval overlaps the new one;
   * otherwise it adds exactly that interval and keeps the set separated,
   * and the invariant when no drag is active.
   */
  lemma AddIntervalSpec(st: EngineState, interval: Interval)
    requires Inv(st)
    ensures AddInterval(st, interval).Failure? <==> exists j :: 0 <= j < |st.intervals| && Meet(st.intervals[j], interval)
    ensures AddInterval(st, interval).Success? ==>
      var st' := AddInterval(st, interval).value;
      && Separated(st'.intervals)
      && (forall y :: y in st'.intervals <==> y in st.intervals || y == interval)
      && st' == st.(intervals := st'.intervals)
      && (st.drag.None? ==> Inv(st'))
  {
    FirstOverlapSpec(st.intervals, IntervalElement(interval));
    forall j | 0 <= j < |st.intervals|
      ensures IntervalElement(st.intervals[j]).Overlaps(IntervalElement(interval)) <==> Meet(st.intervals[j], interval)
    {
      OverlapsIsMeet(st.intervals[j], interval);
    }
    if AddInterval(st, interval).Success? {
      InsertSeparated(st.intervals, interval);
    }
  }

  /** Creating an interval: the drag space holds the press point and meets no live interval. */
  lemma CreateConsistent(lineStart: Point, lineEnd: Point, s: seq<Interval>, dragStart: Point)
    requires Separated(s)
    ensures ResizeEventFor(lineStart, lineEnd, dragStart, None, s).Some? ==>
      DragConsistent(s, ResizeEventFor(lineStart, lineEnd, dragStart, None, s).value)
  {
    ResizeEventFromSpec(lineStart, lineEnd, dragStart, None, s, 0);
    var r := ResizeEventFor(lineStart, lineEnd, dragStart, None, s);
    if r.Some? {
      forall y | y in s
        ensures !Meet(y, r.value.dragSpace)
      {
        var j :| 0 <= j < |s| && s[j] == y;
      }
    }
  }

  /** Moving the live interval `selected`: every other live interval becomes an obstacle it does not meet. */
  lemma MoveConsistent(s: seq<Interval>, dragStart: Point, selected: Interval)
    requires Separated(s) && selected in s
    ensures DragConsistent(s, MoveDrag(dragStart, selected, Remove(s, selected), selected))
  {
    RemoveSeparated(s, selected);
    var remaining := Remove(s, selected);
    forall j | 0 <= j < |remaining|
      ensures !Meet(remaining[j], selected)
    {
      assert remaining[j] in remaining;
      SeparatedMembers(s, remaining[j], selected);
    }
    forall y | y in s && y != selected
      ensures y in remaining
    {
      SeparatedMembers(s, y, selected);
    }
  }

  /** Resizing the live interval `parent` from its boundary `fixed`: the drag space meets no other live interval. */
  lemma ResizeConsistent(lineStart: Point, lineEnd: Point, s: seq<Interval>, fixed: Point, parent: Interval)
    requires Separated(s) && parent in s
    ensures ResizeEventFor(lineStart, lineEnd, fixed, Some(parent), Remove(s, parent)).Some? ==>
      DragConsistent(s, ResizeEventFor(lineStart, lineEnd, fixed, Some(parent), Remove(s, parent)).value)
  {
    RemoveSeparated(s, parent);
    var remaining := Remove(s, parent);
    ResizeEventFromSpec(lineStart, lineEnd, fixed, Some(parent), remaining, 0);
    var r := ResizeEventFor(lineStart, lineEnd, fixed, Some(parent), remaining);
    if r.Some? {
      forall y | y in s && y != parent
        ensures !Meet(y, r.value.dragSpace) && !Meet(y, parent)
      {
        SeparatedMembers(s, y, parent);
        assert y in remaining;
        var j :| 0 <= j < |remaining| && remaining[j] == y;
      }
    }
  }

  /** Starting a drag from an idle, consistent state yields a consistent drag. */
  lemma DragEventForConsistent(lineStart: Point, lineEnd: Point, s: seq<Interval>, dragStart: Point)
    requires Separated(s)
    ensures DragEventFor(lineStart, lineEnd, s, dragStart).Some? ==>
      DragConsistent(s, DragEventFor(lineStart, lineEnd, s, dragStart).value)
  {
    SelectionSpec(s, dragStart);
    match SelectionAt(s, dragStart)
    case None =>
      CreateConsistent(lineStart, lineEnd, s, dragStart);
    case Some(IntervalSelection(selected)) =>
      assert s[SelectedIndex(s, dragStart, |s|)] == selected;
      MoveConsistent(s, dragStart, selected);
    case Some(PointSelection(selected, parent)) =>
      assert s[SelectedIndex(s, dragStart, |s|)] == parent;
      ResizeConsistent(lineStart, lineEnd, s, NotSelected(selected, parent).value, parent);
  }

  /**
   * Replacing the working interval `prev` by `next` in a separated set
   * keeps it separated when `next` meets no other live interval; the live
   * set then holds `next` and every interval not sharing `prev`'s start.
   */
  lemma ReplaceSpec(s: seq<Interval>, prev: Option<Interval>, next: Interval)
    requires Separated(s)
    requires forall y :: y in s && Some(y) != prev ==> !Meet(y, next)
    ensures Separated(Replace(s, prev, next))
    ensures forall y :: y in Replace(s, prev, next) <==> (y in s && (prev.None? || y.start != prev.value.start)) || y == next
  {
    var kept := if prev.Some? then Remove(s, prev.value) else s;
    if prev.Some? {
      RemoveSeparated(s, prev.value);
    }
    forall j | 0 <= j < |kept|
      ensures !Meet(kept[j], next)
    {
      assert kept[j] in kept;
    }
    InsertSeparated(kept, next);
  }

  /** A move update keeps the live set separated and the move consistent. */
  lemma MoveToInv(lineStart: Point, lineEnd: Point, st: EngineState, dragEnd: Point)
    requires Inv(st) && st.drag.Some? && st.drag.value.MoveDrag?
    ensures Inv(DragTo(lineStart, lineEnd, st, dragEnd))
  {
    var d := st.drag.value;
    var next := MoveUpdate(lineStart, lineEnd, d, dragEnd);
    MoveUpdateSpec(lineStart, lineEnd, d, dragEnd);
    forall y | y in st.intervals && y != d.interval
      ensures !Meet(y, next)
    {
      var i :| 0 <= i < |d.remaining| && d.remaining[i] == y;
    }
    ReplaceSpec(st.intervals, Some(d.interval), next);
  }

  /** A resize update keeps the live set separated and the resize consistent. */
  lemma ResizeToInv(lineStart: Point, lineEnd: Point, st: EngineState, dragEnd: Point)
    requires Inv(st) && st.drag.Some? && st.drag.value.ResizeDrag?
    ensures Inv(DragTo(lineStart, lineEnd, st, dragEnd))
  {
    var d := st.drag.value;
    var r := ResizeUpdate(d, dragEnd);
    ResizeUpdateSpec(d, dragEnd);
    if r.Some? {
      forall y | y in st.intervals && Some(y) != d.resizeResult
        ensures !Meet(y, r.value)
      {
        if r != d.resizeResult {
          assert !Meet(y, d.dragSpace);
        }
      }
      ReplaceSpec(st.intervals, d.resizeResult, r.value);
    }
  }

  /** A drag update keeps the live set separated and the drag consistent. */
  lemma DragToInv(lineStart: Point, lineEnd: Point, st: EngineState, dragEnd: Point)
    requires Inv(st) && st.drag.Some?
    ensures Inv(DragTo(lineStart, lineEnd, st, dragEnd))
  {
    if st.drag.value.MoveDrag? {
      MoveToInv(lineStart, lineEnd, st, dragEnd);
    } else {
      ResizeToInv(lineStart, lineEnd, st, dragEnd);
    }
  }

  /** A press while idle keeps the invariant. */
  lemma PressInv(lineStart: Point, lineEnd: Point, st: EngineState, position: Option<Point>)
    requires Inv(st) && st.drag.None?
    ensures Inv(Press(lineStart, lineEnd, st, position))
  {
    if position.Some? {
      DragEventForConsistent(lineStart, lineEnd, st.intervals, position.value);
    }
  }

  /** A double click removes at most one live interval and keeps the invariant. */
  lemma DoubleClickInv(st: EngineState, position: Option<Point>)
    requires Inv(st)
    ensures Inv(DoubleClick(st, position))
    ensures forall y :: y in DoubleClick(st, position).intervals ==> y in st.intervals
  {
    if position.Some? {
      match FirstOverlap(st.intervals, PointElement(position.value))
      case None =>
      case Some(interval) =>
        RemoveSeparated(st.intervals, interval);
    }
  }

  /** Every event keeps the live set sorted and pairwise disjoint, and an active drag consistent. */
  lemma StepPreservesInv(lineStart: Point, lineEnd: Point, st: EngineState, event: MouseEvent)
    requires Inv(st)
    ensures Inv(Step(lineStart, lineEnd, st, event))
  {
    if event.eventType == Pressed && st.drag.None? {
      PressInv(lineStart, lineEnd, st, event.position);
    } else if event.eventType == Released && st.drag.Some? {
    } else if event.eventType == Clicked && event.clickCount == 2 {
      DoubleClickInv(st, event.position);
    } else if st.drag.Some? {
      DragToInv(lineStart, lineEnd, st, event.fitPosition);
    }
  }

  /** After any sequence of events the live set is sorted by start and pairwise non-overlapping. */
  lemma {:induction false} RunPreservesInv(lineStart: Point, lineEnd: Point, st: EngineState, events: seq<MouseEvent>)
    requires Inv(st)
    ensures Inv(Run(lineStart, lineEnd, st, events))
    ensures SortedByStart(Run(lineStart, lineEnd, st, events).intervals)
    ensures PairwiseDisjoint(Run(lineStart, lineEnd, st, events).intervals)
    decreases |events|
  {
    if |events| > 0 {
      StepPreservesInv(lineStart, lineEnd, st, events[0]);
      RunPreservesInv(lineStart, lineEnd, Step(lineStart, lineEnd, st, events[0]), events[1..]);
    } else {
      SeparatedIff(st.intervals);
    }
  }

  // ---------------------------------------------------------------------
  // Behaviour of single events

  /** A press while idle starts the drag chosen at the pressed point and changes nothing else. */
  lemma PressSpec(lineStart: Point, lineEnd: Point, st: EngineState, event: MouseEvent)
    requires event.eventType == Pressed && st.drag.None? && event.position.Some?
    ensures var st' := Step(lineStart, lineEnd, st, event);
      && st'.drag == DragEventFor(lineStart, lineEnd, st.intervals, event.position.value)
      && st'.intervals == st.intervals
      && st'.notifications == st.notifications
  {
  }

  /**
   * A release ends the drag and leaves the live set alone; it reports
   * `onChange(origin, result)` exactly when a listener is set and the result
   * is non-null and differs from the origin.
   */
  lemma ReleaseSpec(lineStart: Point, lineEnd: Point, st: EngineState, event: MouseEvent)
    requires event.eventType == Released && st.drag.Some?
    ensures var st' := Step(lineStart, lineEnd, st, event);
      var d := st.drag.value;
      && st'.drag.None?
      && st'.intervals == st.intervals
      && (|st'.notifications| == |st.notifications| + 1 <==> st.listening && d.Result().Some? && d.Result() != d.Origin())
      && st'.notifications[..|st.notifications|] == st.notifications
      && (|st'.notifications| > |st.notifications| ==> st'.notifications[|st.notifications|] == Changed(d.Origin(), d.Result()))
  {
    var st' := Step(lineStart, lineEnd, st, event);
    assert st'.notifications[..|st.notifications|] == st.notifications;
  }

  /**
   * A double click on a point inside a live interval removes exactly that
   * interval, reporting `onChange(interval, null)` to a listener; anywhere
   * else it changes neither the set nor the log.
   */
  lemma DoubleClickSpec(lineStart: Point, lineEnd: Point, st: EngineState, event: MouseEvent, k: nat)
    requires Inv(st) && event.eventType == Clicked && event.clickCount == 2 && event.position.Some?
    ensures var p := event.position.value;
      var st' := Step(lineStart, lineEnd, st, event);
      && (k < |st.intervals| && st.intervals[k].start.x <= p.x <= st.intervals[k].end.x ==>
            && (forall y :: y in st'.intervals <==> y in st.intervals && y != st.intervals[k])
            && st'.notifications == st.notifications + if st.listening then [Changed(Some(st.intervals[k]), None)] else [])
      && ((forall j :: 0 <= j < |st.intervals| ==> !(st.intervals[j].start.x <= p.x <= st.intervals[j].end.x)) ==>
            st'.intervals == st.intervals && st'.notifications == st.notifications)
  {
    var p := event.position.value;
    var s := st.intervals;
    if k < |s| && s[k].start.x <= p.x <= s[k].end.x {
      HitIsFirstOverlap(s, p, k);
      RemoveSeparated(s, s[k]);
      forall y | y in s && y != s[k]
        ensures y.start != s[k].start
      {
        SeparatedMembers(s, y, s[k]);
      }
    } else if forall j :: 0 <= j < |s| ==> !(s[j].start.x <= p.x <= s[j].end.x) {
      FirstOverlapSpec(s, PointElement(p));
      forall j | 0 <= j < |s|
        ensures !IntervalElement(s[j]).Overlaps(PointElement(p))
      {
        PointInInterval(p, s[j]);
      }
    }
  }

  /** In a separated set, the interval holding a point is the first one overlapping it. */
  lemma HitIsFirstOverlap(s: seq<Interval>, p: Point, k: nat)
    requires Separated(s) && k < |s| && s[k].start.x <= p.x <= s[k].end.x
    ensures FirstOverlap(s, PointElement(p)) == Some(s[k])
  {
    FirstOverlapSpec(s, PointElement(p));
    PointInInterval(p, s[k]);
    var hit := FirstOverlap(s, PointElement(p)).value;
    var i :| 0 <= i < |s| && s[i] == hit && IntervalElement(s[i]).Overlaps(PointElement(p));
    PointInInterval(p, s[i]);
  }

  /** An idle mouse move only updates the cursor. */
  lemma IdleMoveKeepsSet(lineStart: Point, lineEnd: Point, st: EngineState, event: MouseEvent)
    requires st.drag.None? && event.eventType == Other
    ensures Step(lineStart, lineEnd, st, event) == st.(cursor := CursorFor(st.intervals, event.position))
  {
  }

  // ---------------------------------------------------------------------
  // Scenarios

  /** An interval literal. */
  function Iv(a: int, b: int): Interval
    requires a < b
  {
    Span(Point(a), Point(b))
  }

  /** A single-click event at `x`, resolved the same in both modes. */
  function At(eventType: EventType, x: int): MouseEvent
  {
    MouseEvent(eventType, 1, Some(Point(x)), Point(x))
  }

  /**
   * On the line [0, 100] with a listener, pressing at 20 in empty space,
   * dragging to 40 and releasing creates [20, 40], reporting the drag step
   * and then the change.
   */
  lemma CreateScenario()
    ensures var st := Run(Point(0), Point(100), SetListener(Initial(), true), [At(Pressed, 20), At(Other, 40), At(Released, 40)]);
      && st.intervals == [Iv(20, 40)]
      && st.drag.None?
      && st.notifications == [Dragged(None, Iv(20, 40)), Changed(None, Some(Iv(20, 40)))]
  {
    var ls, le := Point(0), Point(100);
    var s0 := SetListener(Initial(), true);
    var e0, e1, e2 := At(Pressed, 20), At(Other, 40), At(Released, 40);
    assert Gap(ls, le, [], 0) == Some(Iv(0, 100));
    var d0 := ResizeDrag(Point(20), Iv(0, 100), None, None);
    assert DragEventFor(ls, le, [], Point(20)) == Some(d0);
    var s1 := Step(ls, le, s0, e0);
    assert s1 == s0.(drag := Some(d0));
    var d1 := d0.(resizeResult := Some(Iv(20, 40)));
    assert Update(ls, le, d0, Point(40)) == d1;
    var s2 := Step(ls, le, s1, e1);
    assert s2 == s1.(drag := Some(d1), intervals := [Iv(20, 40)], notifications := [Dragged(None, Iv(20, 40))]);
    var s3 := Step(ls, le, s2, e2);
    assert s3.intervals == [Iv(20, 40)] && s3.drag.None?;
    assert s3.notifications == [Dragged(None, Iv(20, 40)), Changed(None, Some(Iv(20, 40)))];
    assert Run(ls, le, s0, [e0, e1, e2]) == Run(ls, le, s1, [e1, e2]);
    assert Run(ls, le, s1, [e1, e2]) == Run(ls, le, s2, [e2]);
  }

  /** Double-clicking at 10 deletes [5, 15] and reports it. */
  lemma DeleteScenario()
    ensures var st := EngineState([Iv(5, 15)], None, Default, true, []);
      var st' := Step(Point(0), Point(100), st, MouseEvent(Clicked, 2, Some(Point(10)), Point(10)));
      st'.intervals == [] && st'.notifications == [Changed(Some(Iv(5, 15)), None)]
  {
    PointInInterval(Point(10), Iv(5, 15));
  }

  /**
   * With [10, 30] and [40, 60] live, pressing at 30 grabs the end of [10, 30]
   * (its start 10 stays fixed); dragging to 50 stops at 39, one before the
   * neighbour.
   */
  lemma ResizeScenario()
    ensures var st := EngineState([Iv(10, 30), Iv(40, 60)], None, Default, false, []);
      var st' := Run(Point(0), Point(100), st, [At(Pressed, 30), At(Other, 50)]);
      st'.intervals == [Iv(10, 39), Iv(40, 60)]
  {
    var ls, le := Point(0), Point(100);
    var s := [Iv(10, 30), Iv(40, 60)];
    var s0 := EngineState(s, None, Default, false, []);
    assert SelectionUpTo(s, Point(30), 1) == Some(PointSelection(Point(30), Iv(10, 30)));
    assert SelectionAt(s, Point(30)) == Some(PointSelection(Point(30), Iv(10, 30)));
    assert Remove(s, Iv(10, 30)) == [Iv(40, 60)];
    assert Gap(ls, le, [Iv(40, 60)], 0) == Some(Iv(0, 39));
    var d0 := ResizeDrag(Point(10), Iv(0, 39), Some(Iv(10, 30)), Some(Iv(10, 30)));
    assert DragEventFor(ls, le, s, Point(30)) == Some(d0);
    var s1 := Step(ls, le, s0, At(Pressed, 30));
    assert s1 == s0.(drag := Some(d0));
    assert Update(ls, le, d0, Point(50)) == d0.(resizeResult := Some(Iv(10, 39)));
    var s2 := Step(ls, le, s1, At(Other, 50));
    assert Remove(s, Iv(10, 30)) == [Iv(40, 60)];
    assert Insert([Iv(40, 60)], Iv(10, 39)) == [Iv(10, 39), Iv(40, 60)];
    assert s2.intervals == [Iv(10, 39), Iv(40, 60)];
    assert Run(ls, le, s0, [At(Pressed, 30), At(Other, 50)]) == Run(ls, le, s1, [At(Other, 50)]);
  }

  /**
   * With [0, 10] and [20, 30] live on [0, 100], grabbing [0, 10] at 5 and
   * dragging to 20 would land it on [15, 25]; the pointer is left of the
   * blocker's centre 25, so the interval is put just before the blocker, at
   * [9, 19].
   */
  lemma MoveScenario()
    ensures var st := EngineState([Iv(0, 10), Iv(20, 30)], None, Default, false, []);
      var st' := Run(Point(0), Point(100), st, [At(Pressed, 5), At(Other, 20)]);
      st'.intervals == [Iv(9, 19), Iv(20, 30)]
  {
    var ls, le := Point(0), Point(100);
    var s := [Iv(0, 10), Iv(20, 30)];
    var s0 := EngineState(s, None, Default, false, []);
    assert SelectionUpTo(s, Point(5), 1) == Some(IntervalSelection(Iv(0, 10)));
    assert SelectionAt(s, Point(5)) == Some(IntervalSelection(Iv(0, 10)));
    var remaining := [Iv(20, 30)];
    assert Remove(s, Iv(0, 10)) == remaining;
    var d0 := MoveDrag(Point(5), Iv(0, 10), remaining, Iv(0, 10));
    assert DragEventFor(ls, le, s, Point(5)) == Some(d0);
    var s1 := Step(ls, le, s0, At(Pressed, 5));
    assert s1 == s0.(drag := Some(d0));
    PointOverlapsAndDisplacement(Point(5), Point(20));
    PointOverlapsAndDisplacement(Iv(0, 10).end, le);
    assert ClampDisplacement(ls, le, Iv(0, 10), 15) == 15;
    assert Moved(Iv(0, 10), 15) == Iv(15, 25);
    OverlapsIsMeet(Iv(20, 30), Iv(15, 25));
    assert ClosestOverlap(remaining, Iv(15, 25)) == Some(Iv(20, 30));
    PointOverlapsAndDisplacement(ls, Point(20));
    assert Place(ls, le, None, Iv(20, 30), None, Iv(0, 10), Iv(15, 25), Point(20)) == Iv(9, 19);
    assert MoveUpdate(ls, le, d0, Point(20)) == Iv(9, 19);
    var s2 := Step(ls, le, s1, At(Other, 20));
    assert Insert(remaining, Iv(9, 19)) == [Iv(9, 19), Iv(20, 30)];
    assert s2.intervals == [Iv(9, 19), Iv(20, 30)];
    assert Run(ls, le, s0, [At(Pressed, 5), At(Other, 20)]) == Run(ls, le, s1, [At(Other, 20)]);
  }
}
