/**
 * `IntervalsEventHandler` of the first version and its two drag classes as
 * imperative code: the handler's fields are updated in place, each drag
 * object updates its working interval, and the loops walk the live set or
 * the windows of `Util.slideWindow`. Every method is proved against the
 * functions of `LegacyControllerSpec`.
 */
module LegacyController {
  import opened Wrappers
  import opened JavaInt
  import opened Collections
  import opened LegacyGeometry
  import opened LegacyIntervalSet
  import opened LegacyWindows
  import opened LegacyControllerSpec
  import CS = ControllerSpec

  /** `next()` of a window iterator that has one left: slot `j` is element `k + j - padding` of the input. */
  method NextSlots<T>(it: LinkedWindowIterator<T>) returns (window: seq<Option<T>>)
    requires it.Valid() && it.HasNext()
    modifies it
    ensures it.Valid() && it.Yielded() == old(it.Yielded()) + 1 && it.Remaining() < old(it.Remaining())
    ensures 0 <= old(it.Yielded()) < |SlidingWindows(it.input, it.size, it.padding)|
    ensures |window| == it.size
    ensures forall j :: 0 <= j < it.size ==> window[j] == SlotAt(it.input, old(it.Yielded()) + j - it.padding)
  {
    it.HasNextSpec();
    ghost var k := it.Yielded();
    var next := it.Next();
    window := next.value;
    SlidingWindowAt(it.input, it.size, it.padding, k);
  }

  /** One step of `getResizeEvent`'s loop: the gap between the next two neighbours, gap `k` of the input. */
  method NextGap(it: LinkedWindowIterator<Interval>) returns (dragSpace: Option<Interval>)
    requires it.Valid() && it.HasNext() && it.size == 2 && it.padding == 1
    modifies it
    ensures it.Valid() && it.Yielded() == old(it.Yielded()) + 1 && it.Remaining() < old(it.Remaining())
    ensures 0 <= old(it.Yielded()) <= |it.input|
    ensures dragSpace == Gap(it.input, old(it.Yielded()))
  {
    SlidingWindowsCount(it.input, 2, 1);
    var window := NextSlots(it);
    dragSpace := IntervalInBetween(window[0], window[1]);
  }

  /** One step of `adjustIntervalOnOverlap`'s loop: the next window of three, centred on element `k`. */
  method NextNeighbours(it: LinkedWindowIterator<Interval>) returns (prev: Option<Interval>, middle: Interval, following: Option<Interval>)
    requires it.Valid() && it.HasNext() && it.size == 3 && it.padding == 1
    modifies it
    ensures it.Valid() && it.Yielded() == old(it.Yielded()) + 1 && it.Remaining() < old(it.Remaining())
    ensures 0 <= old(it.Yielded()) < |it.input|
    ensures prev == SlotAt(it.input, old(it.Yielded()) - 1)
    ensures middle == it.input[old(it.Yielded())]
    ensures following == SlotAt(it.input, old(it.Yielded()) + 1)
  {
    SlidingWindowsCount(it.input, 3, 1);
    var window := NextSlots(it);
    prev, middle, following := window[0], window[1].value, window[2];
  }

  /** One step of the loops over `slideWindow(intervals, 2)`: neighbours `k` and `k + 1`. */
  method NextPair(it: LinkedWindowIterator<Interval>) returns (prev: Interval, following: Interval)
    requires it.Valid() && it.HasNext() && it.size == 2 && it.padding == 0
    modifies it
    ensures it.Valid() && it.Yielded() == old(it.Yielded()) + 1 && it.Remaining() < old(it.Remaining())
    ensures 0 <= old(it.Yielded()) && old(it.Yielded()) + 1 < |it.input|
    ensures prev == it.input[old(it.Yielded())] && following == it.input[old(it.Yielded()) + 1]
  {
    SlidingWindowsCount(it.input, 2, 0);
    var window := NextSlots(it);
    prev, following := window[0].value, window[1].value;
  }

  /** `IntervalMove`: a drag that moves `origin` among `remainingIntervals`. */
  class IntervalMove {
    const dragStart: Point
    const origin: Interval
    const remainingIntervals: seq<Interval>
    var interval: Interval

    constructor (dragStart: Point, origin: Interval, remainingIntervals: seq<Interval>)
      ensures this.dragStart == dragStart && this.origin == origin && this.remainingIntervals == remainingIntervals
      ensures interval == origin
    {
      this.dragStart := dragStart;
      this.origin := origin;
      this.remainingIntervals := remainingIntervals;
      this.interval := origin;
    }

    function State(): DragState
      reads this
    {
      MoveDrag(dragStart, origin, remainingIntervals, interval)
    }

    /** `updated(dragEnd)`: clamp the distance to the line, then resolve overlaps. */
    method Updated(dragEnd: Point) returns (r: Interval)
      modifies this
      ensures interval == MoveUpdate(old(State()), dragEnd)
      ensures r == interval
    {
      var distance := dragStart.Distance(dragEnd);
      distance := if distance < 0
        then Max(distance, origin.start.Distance(Start()))
        else Min(distance, origin.end.Distance(End()));
      r := AdjustIntervalOnOverlap(MoveInterval(origin, distance), dragEnd);
      interval := r;
    }

    /** `adjustIntervalOnOverlap(updated, dragEnd)`: walks the windows of three neighbours to the first blocker. */
    method AdjustIntervalOnOverlap(updated: Interval, dragEnd: Point) returns (r: Interval)
      ensures r == AdjustOnOverlap(remainingIntervals, interval, updated, dragEnd)
    {
      var it := new LinkedWindowIterator(remainingIntervals, 3, 1);
      SlidingWindowsCount(remainingIntervals, 3, 1);
      while it.HasNext()
        invariant it.Valid() && fresh(it)
        invariant it.input == remainingIntervals && it.size == 3 && it.padding == 1
        invariant 0 <= it.Yielded() <= |remainingIntervals|
        invariant forall j :: 0 <= j < it.Yielded() ==> !Meet(remainingIntervals[j], updated)
        decreases it.Remaining()
      {
        ghost var k := it.Yielded();
        var prev, blocker, following := NextNeighbours(it);
        OverlapsIsMeet(blocker, updated);
        if LegacyGeometry.Overlaps(IntervalElement(blocker), IntervalElement(updated)) {
          assert FirstMeet(remainingIntervals, updated) == k;
          r := PlaceNext(prev, blocker, following, updated, dragEnd);
          return;
        }
      }
      it.HasNextSpec();
      r := updated;
    }

    /** The body of the loop of `adjustIntervalOnOverlap` at the blocker. */
    method PlaceNext(prev: Option<Interval>, blocker: Interval, following: Option<Interval>, updated: Interval, dragEnd: Point)
      returns (r: Interval)
      ensures r == Place(prev, blocker, following, interval, updated, dragEnd)
    {
      if blocker.Center().CompareTo(dragEnd) > 0 {
        var lastLeftSpot := if prev.None? then Start() else prev.value.end.Move(1, true);
        if lastLeftSpot.Distance(blocker.start) > updated.Length() {
          MoveSpec(blocker.start, -updated.Length() - 1, true);
          MoveSpec(blocker.start, -1, false);
          var placed := NewInterval(blocker.start.Move(-updated.Length() - 1, true), blocker.start.Move(-1, false));
          return placed.value;
        }
      } else {
        var lastRightSpot := if following.None? then End() else following.value.start.Move(-1, true);
        if blocker.end.Distance(lastRightSpot) > updated.Length() {
          MoveSpec(blocker.end, updated.Length() + 1, false);
          MoveSpec(blocker.end, 1, true);
          var placed := NewInterval(blocker.end.Move(updated.Length() + 1, false), blocker.end.Move(1, true));
          return placed.value;
        }
      }
      r := interval;
    }
  }

  /** `IntervalResize`: a drag that resizes an interval (or creates one) inside `dragSpace` from the fixed `dragStart`. */
  class IntervalResize {
    const dragStart: Point
    const dragSpace: Interval
    var interval: Option<Interval>

    constructor (dragStart: Point, dragSpace: Interval, origin: Option<Interval>)
      ensures this.dragStart == dragStart && this.dragSpace == dragSpace
      ensures interval == origin
    {
      this.dragStart := dragStart;
      this.dragSpace := dragSpace;
      this.interval := origin;
    }

    function State(): DragState
      reads this
    {
      ResizeDrag(dragStart, dragSpace, interval)
    }

    /** `updated(dragEnd)`: the interval from the fixed point to the pointer clamped into the drag space. */
    method Updated(dragEnd: Point) returns (r: Option<Interval>)
      modifies this
      ensures interval == ResizeUpdate(old(State()), dragEnd)
      ensures r == interval
    {
      var fitted := FitToDragSpace(dragSpace, dragEnd);
      if !dragStart.Equals(fitted) {
        var created := NewInterval(dragStart, fitted);
        interval := Some(created.value);
      }
      r := interval;
    }
  }

  /** The active drag, whichever kind it is. */
  datatype DragEvent = MoveEvent(move: IntervalMove) | ResizeEvent(resize: IntervalResize)

  /** The handler: the live intervals, the active drag, the cursor and the painted labels. */
  class IntervalsEventHandler {
    var intervals: seq<Interval>
    var dragEvent: Option<DragEvent>
    var cursor: CS.Cursor
    var labels: seq<Label>

    /** The drag object, when a drag is active. */
    function Objects(): set<object>
      reads this
    {
      match dragEvent
      case None => {}
      case Some(MoveEvent(m)) => {m}
      case Some(ResizeEvent(r)) => {r}
    }

    function Drag(): Option<DragState>
      reads this, Objects()
    {
      match dragEvent
      case None => None
      case Some(MoveEvent(m)) => Some(m.State())
      case Some(ResizeEvent(r)) => Some(r.State())
    }

    function State(): EngineState
      reads this, Objects()
    {
      EngineState(intervals, Drag(), cursor, labels)
    }

    /** The live set is sorted, disjoint and on the line, labelled, and the drag agrees with it. */
    predicate Valid()
      reads this, Objects()
    {
      Inv(State())
    }

    constructor ()
      ensures State() == Initial() && Valid()
    {
      intervals := [];
      dragEvent := None;
      cursor := CS.Default;
      labels := [];
    }

    /** `getSelection(point)`: the closest designated element in reach, keeping the earlier one on ties. */
    method GetSelection(point: Point) returns (selection: Option<Selection>)
      ensures selection == SelectionAt(intervals, point)
    {
      selection := None;
      for i := 0 to |intervals|
        invariant selection == SelectionUpTo(intervals, point, i)
      {
        var interval := intervals[i];
        InReachSpec(interval, point);
        if LegacyGeometry.Overlaps(IntervalElement(interval), PointElement(point))
          || Distance(PointElement(point), IntervalElement(interval)) <= IntervalToleranceSpan
        {
          DistancesSpec(interval, interval.start, point);
          DistancesSpec(interval, interval.end, point);
          var distanceToStart := Distance(PointElement(interval.start), PointElement(point));
          var distanceToEnd := Distance(PointElement(interval.end), PointElement(point));
          var selected: Selection;
          if distanceToStart < distanceToEnd && distanceToStart <= PointToleranceSpan {
            selected := PointSelection(interval.start, interval);
          } else if distanceToStart > distanceToEnd && distanceToEnd <= PointToleranceSpan {
            selected := PointSelection(interval.end, interval);
          } else {
            selected := IntervalSelection(interval);
          }
          SelectionDistanceSpec(selected, point);
          if selection.Some? {
            SelectionDistanceSpec(selection.value, point);
          }
          if selection.None? || Distance(selection.value.Selected(), PointElement(point)) > Distance(selected.Selected(), PointElement(point)) {
            selection := Some(selected);
          }
        }
      }
    }

    /** `overlaps(point)`: the first live interval holding the point. */
    method Overlaps(point: Point) returns (r: Option<Interval>)
      ensures r == FirstHolding(intervals, point)
    {
      for i := 0 to |intervals|
        invariant FirstHolding(intervals, point) == FirstOverlap(intervals[i..], PointElement(point))
      {
        assert intervals[i..] == [intervals[i]] + intervals[i + 1..];
        if LegacyGeometry.Overlaps(IntervalElement(intervals[i]), PointElement(point)) {
          return Some(intervals[i]);
        }
      }
      return None;
    }

    /** `getResizeEvent(dragStart, origin, remaining)`: walks the windows of two neighbours to the gap holding `dragStart`. */
    method GetResizeEvent(dragStart: Point, origin: Option<Interval>, remaining: seq<Interval>) returns (r: Option<IntervalResize>)
      ensures r.None? <==> ResizeEventFor(dragStart, origin, remaining).None?
      ensures r.Some? ==> fresh(r.value) && Some(r.value.State()) == ResizeEventFor(dragStart, origin, remaining)
    {
      var it := new LinkedWindowIterator(remaining, 2, 1);
      SlidingWindowsCount(remaining, 2, 1);
      while it.HasNext()
        invariant it.Valid() && fresh(it)
        invariant it.input == remaining && it.size == 2 && it.padding == 1
        invariant 0 <= it.Yielded() <= |remaining| + 1
        invariant ResizeEventFor(dragStart, origin, remaining) == ResizeEventFrom(dragStart, origin, remaining, it.Yielded())
        decreases it.Remaining()
      {
        ghost var k := it.Yielded();
        var dragSpace := NextGap(it);
        ResizeEventStep(dragStart, origin, remaining, k, dragSpace);
        if dragSpace.Some? {
          HoldsSpec(dragSpace.value, dragStart);
        }
        if dragSpace.Some? && LegacyGeometry.Overlaps(IntervalElement(dragSpace.value), PointElement(dragStart)) {
          var resize := new IntervalResize(dragStart, dragSpace.value, origin);
          return Some(resize);
        }
      }
      it.HasNextSpec();
      return None;
    }

    /** `getDragEvent(dragStart)`: move the selected body, resize at the selected boundary, or create in a gap. */
    method GetDragEvent(dragStart: Point) returns (r: Option<DragEvent>)
      ensures r.None? <==> DragEventFor(intervals, dragStart).None?
      ensures r.Some? ==> match r.value
        case MoveEvent(m) => fresh(m) && Some(m.State()) == DragEventFor(intervals, dragStart)
        case ResizeEvent(z) => fresh(z) && Some(z.State()) == DragEventFor(intervals, dragStart)
    {
      var selection := GetSelection(dragStart);
      SelectionSpec(intervals, dragStart);
      match selection
      case None =>
        var resize := GetResizeEvent(dragStart, None, intervals);
        r := if resize.Some? then Some(ResizeEvent(resize.value)) else None;
      case Some(IntervalSelection(selected)) =>
        var remainingIntervals := Remove(intervals, selected);
        var move := new IntervalMove(dragStart, selected, remainingIntervals);
        r := Some(MoveEvent(move));
      case Some(PointSelection(selected, parent)) =>
        var remainingIntervals := Remove(intervals, parent);
        var fixed := NotSelected(selected, parent);
        var resize := GetResizeEvent(fixed.value, Some(parent), remainingIntervals);
        r := if resize.Some? then Some(ResizeEvent(resize.value)) else None;
    }

    /**
     * `clearBlankIntervals()`: builds the space between each pair of
     * neighbours, which throws when they share a point, and clears its label.
     */
    method ClearBlankIntervals() returns (r: Result<()>)
      modifies this
      ensures intervals == old(intervals) && dragEvent == old(dragEvent) && cursor == old(cursor)
      ensures r.Success? <==> BlankLabels(intervals).Success?
      ensures r.Failure? ==> r.error == BlankLabels(intervals).error && labels == old(labels)
      ensures r.Success? ==> labels == []
    {
      var it := new LinkedWindowIterator(intervals, 2, 0);
      SlidingWindowsCount(intervals, 2, 0);
      while it.HasNext()
        invariant it.Valid() && fresh(it)
        invariant it.input == intervals && it.size == 2 && it.padding == 0
        invariant 0 <= it.Yielded() <= Max(0, |intervals| - 1)
        invariant intervals == old(intervals) && dragEvent == old(dragEvent) && cursor == old(cursor) && labels == old(labels)
        invariant BlankLabels(intervals).Success? <==> BlankLabelsFrom(intervals, it.Yielded()).Success?
        invariant BlankLabels(intervals).Failure? ==> BlankLabels(intervals).error == BlankLabelsFrom(intervals, it.Yielded()).error
        decreases it.Remaining()
      {
        var prev, following := NextPair(it);
        var space := NewInterval(prev.end, following.start);
        if space.Failure? {
          return Failure(space.error);
        }
      }
      it.HasNextSpec();
      labels := [];
      r := Success(());
    }

    /** `paintBlankIntervals()`: labels the space between each pair of neighbours with its length, at its start. */
    method PaintBlankIntervals() returns (r: Result<()>)
      modifies this
      ensures intervals == old(intervals) && dragEvent == old(dragEvent) && cursor == old(cursor)
      ensures r.Success? <==> BlankLabels(intervals).Success?
      ensures r.Failure? ==> r.error == BlankLabels(intervals).error
      ensures r.Success? ==> labels == old(labels) + BlankLabels(intervals).value
    {
      var it := new LinkedWindowIterator(intervals, 2, 0);
      SlidingWindowsCount(intervals, 2, 0);
      ghost var painted: seq<Label> := [];
      PrefixedSpec(painted, Label(Start(), 0), BlankLabelsFrom(intervals, 0));
      while it.HasNext()
        invariant it.Valid() && fresh(it)
        invariant it.input == intervals && it.size == 2 && it.padding == 0
        invariant 0 <= it.Yielded() <= Max(0, |intervals| - 1)
        invariant intervals == old(intervals) && dragEvent == old(dragEvent) && cursor == old(cursor)
        invariant labels == old(labels) + painted
        invariant BlankLabels(intervals) == Prefixed(painted, BlankLabelsFrom(intervals, it.Yielded()))
        decreases it.Remaining()
      {
        var prev, following := NextPair(it);
        var space := NewInterval(prev.end, following.start);
        if space.Failure? {
          return Failure(space.error);
        }
        PrefixedSpec(painted, Label(space.value.start, space.value.Length()), BlankLabelsFrom(intervals, it.Yielded()));
        labels := labels + [Label(space.value.start, space.value.Length())];
        painted := painted + [Label(space.value.start, space.value.Length())];
      }
      it.HasNextSpec();
      r := Success(());
    }

    /** `handle(event)`: one step of the state machine, then the cursor when no drag is active; an exception escapes as a failure. */
    method Handle(event: MouseEvent) returns (r: Result<()>)
      modifies this, Objects()
      ensures r.Success? <==> Step(old(State()), event).Success?
      ensures r.Failure? ==> r.error == Step(old(State()), event).error
      ensures r.Success? ==> State() == Step(old(State()), event).value
      ensures old(Valid()) ==> r.Success? && Valid()
    {
      if Valid() {
        StepPreservesInv(State(), event);
      }
      var position := Position(event);
      if event.eventType == CS.Pressed && dragEvent.None? {
        if position.Some? {
          dragEvent := GetDragEvent(position.value);
        }
      } else if event.eventType == CS.Released && dragEvent.Some? {
        dragEvent := None;
      } else if event.eventType == CS.Clicked && event.clickCount == 2 {
        var handled := HandleDoubleClick(position);
        if handled.Failure? {
          return handled;
        }
      } else if dragEvent.Some? {
        var handled := HandleDrag(FitPosition(event));
        if handled.Failure? {
          return handled;
        }
      }
      if dragEvent.None? {
        UpdateCursor(position);
      }
      r := Success(());
    }

    /** The double-click branch of `handle`: the first interval under the point is removed and the labels repainted. */
    method HandleDoubleClick(position: Option<Point>) returns (r: Result<()>)
      modifies this
      ensures dragEvent == old(dragEvent)
      ensures r.Success? <==> DoubleClick(old(State()), position).Success?
      ensures r.Failure? ==> r.error == DoubleClick(old(State()), position).error
      ensures r.Success? ==> State() == DoubleClick(old(State()), position).value
    {
      if position.Some? {
        var interval := Overlaps(position.value);
        if interval.Some? {
          r := ClearBlankIntervals();
          if r.Failure? {
            return;
          }
          intervals := Remove(intervals, interval.value);
          r := PaintBlankIntervals();
          return;
        }
      }
      r := Success(());
    }

    /** The drag branch of `handle`: the drag object updates and its result replaces the previous one, relabelling. */
    method HandleDrag(dragEnd: Point) returns (r: Result<()>)
      requires dragEvent.Some?
      modifies this, Objects()
      ensures dragEvent == old(dragEvent)
      ensures r.Success? <==> DragTo(old(State()), dragEnd).Success?
      ensures r.Failure? ==> r.error == DragTo(old(State()), dragEnd).error
      ensures r.Success? ==> State() == DragTo(old(State()), dragEnd).value
    {
      var prev := Drag().value.Result();
      var next: Option<Interval>;
      match dragEvent.value {
        case MoveEvent(m) =>
          var moved := m.Updated(dragEnd);
          next := Some(moved);
        case ResizeEvent(z) =>
          next := z.Updated(dragEnd);
      }
      if next.Some? {
        r := ClearBlankIntervals();
        if r.Failure? {
          return;
        }
        if prev.Some? {
          intervals := Remove(intervals, prev.value);
        }
        intervals := Insert(intervals, next.value);
        r := PaintBlankIntervals();
        return;
      }
      r := Success(());
    }

    /** The cursor update closing `handle` when no drag is active. */
    method UpdateCursor(position: Option<Point>)
      requires dragEvent.None?
      modifies this
      ensures State() == old(State()).(cursor := CursorFor(intervals, position))
      ensures dragEvent.None?
    {
      if position.Some? {
        var selection := GetSelection(position.value);
        if selection.None? {
          cursor := CS.Default;
        } else if selection.value.PointSelection? {
          cursor := CS.HResize;
        } else {
          cursor := CS.Move;
        }
      } else {
        cursor := CS.Default;
      }
    }
  }
}
