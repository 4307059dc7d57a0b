/**
 * `MezzureEventHandler` and its two drag classes as imperative code: the
 * handler's fields are updated in place, each drag object updates its
 * working interval, and the loops walk the live set or its windows. Every
 * method is proved against the functions of `ControllerSpec`.
 */
module Controller {
  import opened Wrappers
  import opened JavaInt
  import opened Model
  import opened IntervalSet
  import opened Collections
  import opened ControllerSpec

  /**
   * `next()` of a window iterator, with what the window then holds: slot
   * `j` is element `k + j - padding` of the input, `k` counting the windows
   * handed out before.
   */
  method NextWindow<A>(it: SlidingWindowIterator<A>) returns (window: Window<A>)
    requires it.Valid() && it.HasNext()
    modifies it.Repr
    ensures it.Valid() && it.Yielded() == old(it.Yielded()) + 1 && it.Remaining() < old(it.Remaining())
    ensures window == it.window && window.Valid()
    ensures |window.Contents| == it.size
    ensures forall j :: 0 <= j < it.size ==> window.Contents[j] == SlotAt(it.input, old(it.Yielded()) + j - it.padding)
  {
    it.HasNextSpec();
    ghost var k := it.Yielded();
    var next := it.Next();
    window := next.value;
    SlidingWindowAt(it.input, it.size, it.padding, k);
  }

  /**
   * One step of `getResizeEvent`'s loop: the next window of two neighbours
   * and the gap between them, which is gap `k` of the input.
   */
  method NextGap(it: SlidingWindowIterator<Interval>, lineStart: Point, lineEnd: Point) returns (dragSpace: Option<Interval>)
    requires it.Valid() && it.HasNext() && it.size == 2 && it.padding == 1
    modifies it.Repr
    ensures it.Valid() && it.Yielded() == old(it.Yielded()) + 1 && it.Remaining() < old(it.Remaining())
    ensures old(it.Yielded()) <= |it.input|
    ensures dragSpace == Gap(lineStart, lineEnd, it.input, old(it.Yielded()))
  {
    it.HasNextSpec();
    var window := NextWindow(it);
    var prev := window.Get(0);
    var following := window.Get(1);
    dragSpace := ControllerSpec.IntervalInBetween(lineStart, lineEnd, prev.value, following.value);
  }

  /**
   * One step of `adjustIntervalOnOverlap`'s loop: the next window of three,
   * centred on element `k` of the input.
   */
  method NextNeighbours(it: SlidingWindowIterator<Interval>) returns (prev: Option<Interval>, middle: Interval, following: Option<Interval>)
    requires it.Valid() && it.HasNext() && it.size == 3 && it.padding == 1
    modifies it.Repr
    ensures it.Valid() && it.Yielded() == old(it.Yielded()) + 1 && it.Remaining() < old(it.Remaining())
    ensures old(it.Yielded()) < |it.input|
    ensures prev == SlotAt(it.input, old(it.Yielded()) - 1)
    ensures middle == it.input[old(it.Yielded())]
    ensures following == SlotAt(it.input, old(it.Yielded()) + 1)
  {
    it.HasNextSpec();
    var window := NextWindow(it);
    var p := window.Get(0);
    var m := window.Get(1);
    var f := window.Get(2);
    prev, middle, following := p.value, m.value.value, f.value;
  }

  /** `IntervalMove`: a drag that moves `origin` among `remainingIntervals`. */
  class IntervalMove {
    const dragStart: Point
    const origin: Interval
    const remainingIntervals: seq<Interval>
    const lineStart: Point   // gc.getStart()
    const lineEnd: Point     // gc.getEnd()
    var interval: Interval

    constructor (dragStart: Point, origin: Interval, remainingIntervals: seq<Interval>, lineStart: Point, lineEnd: Point)
      ensures this.dragStart == dragStart && this.origin == origin && this.remainingIntervals == remainingIntervals
      ensures this.lineStart == lineStart && this.lineEnd == lineEnd
      ensures interval == origin
    {
      this.dragStart := dragStart;
      this.origin := origin;
      this.remainingIntervals := remainingIntervals;
      this.lineStart := lineStart;
      this.lineEnd := lineEnd;
      this.interval := origin;
    }

    function State(): DragState
      reads this
    {
      MoveDrag(dragStart, origin, remainingIntervals, interval)
    }

    /** `updated(dragEnd)`: clamp the displacement to the line, then resolve overlaps. */
    method Updated(dragEnd: Point) returns (r: Interval)
      modifies this
      ensures interval == MoveUpdate(lineStart, lineEnd, old(State()), dragEnd)
      ensures r == interval
    {
      var displacement := PointElement(dragStart).Displacement(PointElement(dragEnd));
      displacement := if displacement < 0
        then Max(displacement, PointElement(origin.start).Displacement(PointElement(lineStart)))
        else Min(displacement, PointElement(origin.end).Displacement(PointElement(lineEnd)));
      r := AdjustIntervalOnOverlap(Moved(origin, displacement), dragEnd);
      interval := r;
    }

    /** `adjustIntervalOnOverlap(updated, dragEnd)`: walks the windows of three neighbours to the blocker. */
    method AdjustIntervalOnOverlap(updated: Interval, dragEnd: Point) returns (r: Interval)
      ensures r == AdjustOnOverlap(lineStart, lineEnd, remainingIntervals, interval, updated, dragEnd)
    {
      var overlapping := GetClosestOverlappingInterval(updated);
      if overlapping.Some? {
        var windows := SlideWindow(remainingIntervals, 3, 1);
        var it := windows.value;
        SlidingWindowsCount(remainingIntervals, 3, 1);
        while it.HasNext()
          invariant it.Valid() && fresh(it.Repr)
          invariant it.input == remainingIntervals && it.size == 3 && it.padding == 1
          invariant it.Yielded() <= |remainingIntervals|
          invariant forall j :: 0 <= j < it.Yielded() ==> remainingIntervals[j] != overlapping.value
          decreases it.Remaining()
        {
          ghost var k := it.Yielded();
          assert forall j :: 0 <= j < k ==> remainingIntervals[j] != overlapping.value;
          var prev, blocker, following := NextNeighbours(it);
          if blocker == overlapping.value {
            AdjustAt(lineStart, lineEnd, remainingIntervals, interval, updated, dragEnd, k);
            r := Place(lineStart, lineEnd, prev, blocker, following, interval, updated, dragEnd);
            return;
          }
          assert it.Yielded() == k + 1 && remainingIntervals[k] != overlapping.value;
        }
        it.HasNextSpec();
      }
      r := updated;
    }

    /** `getClosestOverlappingInterval(updated)`: the overlapping interval with the closest centre, the first on ties. */
    method GetClosestOverlappingInterval(updated: Interval) returns (overlapping: Option<Interval>)
      ensures overlapping == ClosestOverlap(remainingIntervals, updated)
    {
      overlapping := None;
      for i := 0 to |remainingIntervals|
        invariant overlapping == ClosestOverlapUpTo(remainingIntervals, updated, i)
      {
        var interval := remainingIntervals[i];
        OverlapsIsMeet(interval, updated);
        if IntervalElement(interval).Overlaps(IntervalElement(updated))
          && (overlapping.None? || Distance(overlapping.value.Center(), updated.Center()) > Distance(interval.Center(), updated.Center()))
        {
          overlapping := Some(interval);
        }
      }
    }

    /** `distance(a, b)`. */
    static function Distance(a: int, b: int): (r: nat)
      ensures a <= b ==> a + r == b
      ensures b <= a ==> b + r == a
    {
      Abs(b - a)
    }
  }

  /** `IntervalResize`: a drag that resizes `origin` (or creates an interval) inside `dragSpace` from the fixed `dragStart`. */
  class IntervalResize {
    const dragStart: Point
    const dragSpace: Interval
    const origin: Option<Interval>
    var interval: Option<Interval>

    constructor (dragStart: Point, dragSpace: Interval, origin: Option<Interval>)
      ensures this.dragStart == dragStart && this.dragSpace == dragSpace && this.origin == origin
      ensures interval == origin
    {
      this.dragStart := dragStart;
      this.dragSpace := dragSpace;
      this.origin := origin;
      this.interval := origin;
    }

    function State(): DragState
      reads this
    {
      ResizeDrag(dragStart, dragSpace, origin, interval)
    }

    /** `updated(dragEnd)`: the interval from the fixed point to the pointer clamped into the drag space. */
    method Updated(dragEnd: Point) returns (r: Option<Interval>)
      modifies this
      ensures interval == ResizeUpdate(old(State()), dragEnd)
      ensures r == interval
    {
      var fitted := FitToDragSpace(dragSpace, dragEnd);
      if dragStart != fitted {
        var created := NewInterval(dragStart, fitted);
        interval := Some(created.value);
      }
      r := interval;
    }
  }

  /** The active drag, whichever kind it is. */
  datatype DragEvent = MoveEvent(move: IntervalMove) | ResizeEvent(resize: IntervalResize)

  /** The handler: the live intervals, the active drag, the cursor and the listener's log. */
  class MezzureEventHandler {
    const lineStart: Point   // dc.getStart()
    const lineEnd: Point     // dc.getEnd()
    var intervals: seq<Interval>
    var dragEvent: Option<DragEvent>
    var cursor: Cursor
    var listening: bool
    var notifications: seq<Notification>

    /** The drag object, when a drag is active. */
    function Objects(): set<object>
      reads this
    {
      match dragEvent
      case None => {}
      case Some(MoveEvent(m)) => {m}
      case Some(ResizeEvent(r)) => {r}
    }

    function Drag(): Option<DragState>
      reads this, Objects()
    {
      match dragEvent
      case None => None
      case Some(MoveEvent(m)) => Some(m.State())
      case Some(ResizeEvent(r)) => Some(r.State())
    }

    function State(): EngineState
      reads this, Objects()
    {
      EngineState(intervals, Drag(), cursor, listening, notifications)
    }

    /** The live set is sorted and disjoint, and the drag agrees with it and with the line. */
    predicate Valid()
      reads this, Objects()
    {
      && Inv(State())
      && (dragEvent.Some? && dragEvent.value.MoveEvent? ==>
            dragEvent.value.move.lineStart == lineStart && dragEvent.value.move.lineEnd == lineEnd)
    }

    constructor (lineStart: Point, lineEnd: Point)
      ensures this.lineStart == lineStart && this.lineEnd == lineEnd
      ensures State() == Initial() && Valid()
    {
      this.lineStart := lineStart;
      this.lineEnd := lineEnd;
      intervals := [];
      dragEvent := None;
      cursor := Default;
      listening := false;
      notifications := [];
    }

    /** `setListener(listener)`. */
    method SetListener(listening: bool)
      requires Valid()
      modifies this
      ensures State() == ControllerSpec.SetListener(old(State()), listening) && Valid()
    {
      this.listening := listening;
    }

    /** `addInterval(interval)`: `IllegalArgumentException` on overlap, otherwise the interval joins the live set. */
    method AddInterval(interval: Interval) returns (r: Result<()>)
      requires Valid()
      modifies this
      ensures r.Failure? <==> ControllerSpec.AddInterval(old(State()), interval).Failure?
      ensures r.Failure? ==> r.error == IllegalArgument && State() == old(State())
      ensures r.Success? ==> State() == ControllerSpec.AddInterval(old(State()), interval).value
      ensures Separated(intervals)
      ensures old(dragEvent).None? ==> Valid()
    {
      AddIntervalSpec(State(), interval);
      var overlapping := Overlaps(IntervalElement(interval));
      if overlapping.Some? {
        return Failure(IllegalArgument);
      }
      intervals := Insert(intervals, interval);
      r := Success(());
    }

    /** `getSelection(point)`: the closest designated element in reach, keeping the earlier one on ties. */
    method GetSelection(point: Point) returns (selection: Option<Selection>)
      ensures selection == SelectionAt(intervals, point)
    {
      selection := None;
      for i := 0 to |intervals|
        invariant selection == SelectionUpTo(intervals, point, i)
      {
        var interval := intervals[i];
        InReachSpec(interval, point);
        if IntervalElement(interval).Overlaps(PointElement(point))
          || PointElement(point).Distance(IntervalElement(interval)) <= IntervalToleranceSpan
        {
          DistancesSpec(interval, interval.start, point);
          DistancesSpec(interval, interval.end, point);
          var distanceToStart := PointElement(interval.start).Distance(PointElement(point));
          var distanceToEnd := PointElement(interval.end).Distance(PointElement(point));
          var selected: Selection;
          if distanceToStart < distanceToEnd && distanceToStart <= PointToleranceSpan {
            selected := PointSelection(interval.start, interval);
          } else if distanceToStart > distanceToEnd && distanceToEnd <= PointToleranceSpan {
            selected := PointSelection(interval.end, interval);
          } else {
            selected := IntervalSelection(interval);
          }
          SelectionDistanceSpec(selected, point);
          if selection.Some? {
            SelectionDistanceSpec(selection.value, point);
          }
          if selection.None? || selection.value.Selected().Distance(PointElement(point)) > selected.Selected().Distance(PointElement(point)) {
            selection := Some(selected);
          }
        }
      }
    }

    /** `overlaps(element)`: the first live interval overlapping the element. */
    method Overlaps(element: Element1D) returns (r: Option<Interval>)
      ensures r == FirstOverlap(intervals, element)
    {
      for i := 0 to |intervals|
        invariant FirstOverlap(intervals, element) == FirstOverlap(intervals[i..], element)
      {
        assert intervals[i..] == [intervals[i]] + intervals[i + 1..];
        if IntervalElement(intervals[i]).Overlaps(element) {
          return Some(intervals[i]);
        }
      }
      return None;
    }

    /** `getIntervalInBetween(prev, next)`. */
    function IntervalInBetween(prev: Option<Interval>, next: Option<Interval>): (r: Option<Interval>)
      ensures r == ControllerSpec.IntervalInBetween(lineStart, lineEnd, prev, next)
      ensures r.Some? ==> (prev.Some? ==> prev.value.end.x < r.value.start.x) && (next.Some? ==> r.value.end.x < next.value.start.x)
    {
      ControllerSpec.IntervalInBetween(lineStart, lineEnd, prev, next)
    }

    /** `getResizeEvent(dragStart, origin, remaining)`: walks the windows of two neighbours to the gap holding `dragStart`. */
    method GetResizeEvent(dragStart: Point, origin: Option<Interval>, remaining: seq<Interval>) returns (r: Option<IntervalResize>)
      ensures r.None? <==> ResizeEventFor(lineStart, lineEnd, dragStart, origin, remaining).None?
      ensures r.Some? ==> fresh(r.value) && Some(r.value.State()) == ResizeEventFor(lineStart, lineEnd, dragStart, origin, remaining)
    {
      var windows := SlideWindow(remaining, 2, 1);
      var it := windows.value;
      SlidingWindowsCount(remaining, 2, 1);
      while it.HasNext()
        invariant it.Valid() && fresh(it.Repr)
        invariant it.input == remaining && it.size == 2 && it.padding == 1
        invariant it.Yielded() <= |remaining| + 1
        invariant ResizeEventFor(lineStart, lineEnd, dragStart, origin, remaining)
          == ResizeEventFrom(lineStart, lineEnd, dragStart, origin, remaining, it.Yielded())
        decreases it.Remaining()
      {
        ghost var k := it.Yielded();
        var dragSpace := NextGap(it, lineStart, lineEnd);
        ResizeEventStep(lineStart, lineEnd, dragStart, origin, remaining, k, dragSpace);
        // `dragSpace.overlaps(dragStart)`, by `ContainsSpec`
        if dragSpace.Some? && Contains(dragSpace.value, dragStart) {
          var resize := new IntervalResize(dragStart, dragSpace.value, origin);
          return Some(resize);
        }
      }
      it.HasNextSpec();
      assert it.Yielded() == |remaining| + 1;
      return None;
    }

    /** `getDragEvent(dragStart)`: move the selected body, resize at the selected boundary, or create in a gap. */
    method GetDragEvent(dragStart: Point) returns (r: Option<DragEvent>)
      ensures r.None? <==> DragEventFor(lineStart, lineEnd, intervals, dragStart).None?
      ensures r.Some? ==> match r.value
        case MoveEvent(m) => fresh(m) && m.lineStart == lineStart && m.lineEnd == lineEnd
          && Some(m.State()) == DragEventFor(lineStart, lineEnd, intervals, dragStart)
        case ResizeEvent(z) => fresh(z) && Some(z.State()) == DragEventFor(lineStart, lineEnd, intervals, dragStart)
    {
      var selection := GetSelection(dragStart);
      SelectionSpec(intervals, dragStart);
      match selection
      case None =>
        var resize := GetResizeEvent(dragStart, None, intervals);
        r := if resize.Some? then Some(ResizeEvent(resize.value)) else None;
      case Some(IntervalSelection(selected)) =>
        var remainingIntervals := Remove(intervals, selected);
        var move := new IntervalMove(dragStart, selected, remainingIntervals, lineStart, lineEnd);
        r := Some(MoveEvent(move));
      case Some(PointSelection(selected, parent)) =>
        var remainingIntervals := Remove(intervals, parent);
        var fixed := NotSelected(selected, parent);
        var resize := GetResizeEvent(fixed.value, Some(parent), remainingIntervals);
        r := if resize.Some? then Some(ResizeEvent(resize.value)) else None;
    }

    /** `handle(event)`: one step of the state machine, then the cursor when no drag is active. */
    method Handle(event: MouseEvent)
      requires Valid()
      modifies this, Objects()
      ensures Valid()
      ensures State() == Step(lineStart, lineEnd, old(State()), event)
    {
      StepPreservesInv(lineStart, lineEnd, State(), event);
      if event.eventType == Pressed && dragEvent.None? {
        HandlePress(event.position);
      } else if event.eventType == Released && dragEvent.Some? {
        HandleRelease();
      } else if event.eventType == Clicked && event.clickCount == 2 {
        HandleDoubleClick(event.position);
      } else if dragEvent.Some? {
        HandleDrag(event.fitPosition);
      }
      if dragEvent.None? {
        UpdateCursor(event.position);
      }
    }

    /** The press branch of `handle`: a drag starts at the pressed point. */
    method HandlePress(position: Option<Point>)
      requires dragEvent.None?
      modifies this
      ensures State() == ControllerSpec.Press(lineStart, lineEnd, old(State()), position)
      ensures dragEvent.Some? && dragEvent.value.MoveEvent? ==>
        dragEvent.value.move.lineStart == lineStart && dragEvent.value.move.lineEnd == lineEnd
    {
      if position.Some? {
        dragEvent := GetDragEvent(position.value);
      }
    }

    /** The release branch of `handle`: the drag ends and a changed result is reported. */
    method HandleRelease()
      requires dragEvent.Some?
      modifies this
      ensures State() == ControllerSpec.Release(old(State()))
    {
      var d := Drag().value;
      if listening && d.Result().Some? && d.Result() != d.Origin() {
        notifications := notifications + [Changed(d.Origin(), d.Result())];
      }
      dragEvent := None;
    }

    /** The double-click branch of `handle`: the first interval under the point is removed. */
    method HandleDoubleClick(position: Option<Point>)
      modifies this
      ensures State() == ControllerSpec.DoubleClick(old(State()), position)
      ensures dragEvent == old(dragEvent)
    {
      if position.Some? {
        var interval := Overlaps(PointElement(position.value));
        if interval.Some? {
          intervals := Remove(intervals, interval.value);
          if listening {
            notifications := notifications + [Changed(interval, None)];
          }
        }
      }
    }

    /** The drag branch of `handle`: the drag object updates and its result replaces the previous one in the live set. */
    method HandleDrag(dragEnd: Point)
      requires dragEvent.Some?
      requires dragEvent.value.MoveEvent? ==>
        dragEvent.value.move.lineStart == lineStart && dragEvent.value.move.lineEnd == lineEnd
      modifies this, Objects()
      ensures State() == ControllerSpec.DragTo(lineStart, lineEnd, old(State()), dragEnd)
      ensures dragEvent == old(dragEvent)
    {
      var prev := Drag().value.Result();
      var next: Option<Interval>;
      match dragEvent.value {
        case MoveEvent(m) =>
          var moved := m.Updated(dragEnd);
          next := Some(moved);
        case ResizeEvent(z) =>
          next := z.Updated(dragEnd);
      }
      if next.Some? {
        if prev.Some? {
          intervals := Remove(intervals, prev.value);
        }
        intervals := Insert(intervals, next.value);
        if listening && next != prev {
          notifications := notifications + [Dragged(prev, next.value)];
        }
      }
    }

    /** The cursor update closing `handle` when no drag is active. */
    method UpdateCursor(position: Option<Point>)
      requires dragEvent.None?
      modifies this
      ensures State() == old(State()).(cursor := CursorFor(intervals, position))
      ensures dragEvent.None?
    {
      if position.Some? {
        var selection := GetSelection(position.value);
        if selection.None? {
          cursor := Default;
        } else if selection.value.PointSelection? {
          cursor := HResize;
        } else {
          cursor := Move;
        }
      } else {
        cursor := Default;
      }
    }
  }
}
