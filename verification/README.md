# fx-mezzure in Dafny

fx-mezzure is a JavaFX tool for marking intervals on a measuring line. The
line is drawn as a stack of rows on a canvas. Pressing the mouse on empty
space and dragging creates an interval. Pressing on an interval and dragging
moves it, and it is pushed aside by the intervals it runs into. Pressing near
an end point of an interval and dragging resizes it, within the free space
around it. A double click deletes the interval under the mouse. The
intervals never overlap.

This project models the core of both versions of the program:

- **Current version.**
  - `Model`: `model/Element1D`, `model/Point` and `model/Interval`.
  - `Collections`: the ring buffer `_Window` and the iterator `slideWindow` of `util/Collections`.
  - `DrawingContext`: the coordinate arithmetic of `view/MezzureDrawingContext`.
  - `IntervalSet`: the `TreeSet` of intervals ordered by their start.
  - `ControllerSpec`: the state machine of `controller/MezzureEventHandler`, as functions on values.
  - `Controller`: the handler class itself, with its drag objects `IntervalMove` and `IntervalResize`. Its methods are proved against `ControllerSpec`.
- **First version** (package `kweimann.mezzure`).
  - `LegacyGeometry`: the layout constants and conversions of `IntervalsUtil`, the `(x, i)` points of `Point`, the intervals of `Interval`, and `Util.distance`.
  - `LegacyIntervalSet`: the sorted set, keyed by the absolute start.
  - `LegacyWindows`: `Util.slideWindow` over a `LinkedList`.
  - `LegacyControllerSpec` and `LegacyController`: `IntervalsEventHandler`, including its labels of blank intervals.

Java's `null` is `Option.None`. A thrown exception is `Result.Failure` with
the exception's kind. Java's truncating `/` and `%` are written out in
`JavaInt`. A `SortedSet<Interval>` is a sequence sorted by start.

The central results:

- `ControllerSpec.RunPreservesInv` and `LegacyControllerSpec.RunPreservesInv`: after any sequence of mouse events, the intervals are still sorted by start and pairwise non-overlapping, and the drag in progress is consistent with them. In the first version the labels of the blank intervals also stay in step with the intervals.
- `Controller.MezzureEventHandler.Handle` and `LegacyController.IntervalsEventHandler.Handle` do what `Step` specifies, and they keep that invariant.

## Model

| member | source | states |
|---|---|---|
| JavaInt.DivRem | src/main/java/kweimann/mezzure/model/Element1D.java:21-31 | Java's truncating quotient and remainder satisfy `q * b + r == a`, with the remainder strictly between `-b` and `b`; they agree with Dafny's operators on non-negative dividends |
| Model.Span.Move | src/main/java/kweimann/mezzure/model/Interval.java:48-51 | a moved interval keeps its length |
| Model.Span.Resize | src/main/java/kweimann/mezzure/model/Interval.java:30-36 | the resize succeeds exactly when the new start stays before the new end; on success each boundary moved by its own difference; otherwise `IllegalArgumentException` |
| Model.NewInterval | src/main/java/kweimann/mezzure/model/Interval.java:8-16 | construction succeeds exactly for two distinct points, and the interval's boundaries are exactly those two points |
| Model.DoubledCenterIsSum | src/main/java/kweimann/mezzure/model/Element1D.java:14-18 | the doubled centre used by `overlaps` is the sum of an element's two outer coordinates; the length is their difference |
| Model.OverlapsIffShare | src/main/java/kweimann/mezzure/model/Element1D.java:14-18 | two elements overlap iff their closed spans share a coordinate |
| Model.OverlapsSymmetric | src/main/java/kweimann/mezzure/model/Element1D.java:14-18 | `a.overlaps(b) == b.overlaps(a)` |
| Model.DisplacementSpec | src/main/java/kweimann/mezzure/model/Element1D.java:21-31 | the displacement is the gap to an element wholly on the right (positive), minus the gap to one wholly on the left (negative), and 0 exactly when they overlap |
| Model.DisplacementAntisymmetric | src/main/java/kweimann/mezzure/model/Element1D.java:21-31 | `a.displacement(b) == -b.displacement(a)` |
| Model.DistanceSpec | src/main/java/kweimann/mezzure/model/Element1D.java:34-36 | the distance is non-negative and symmetric, and it is 0 exactly when the elements overlap |
| Model.Element1D.Overlaps | src/main/java/kweimann/mezzure/model/Element1D.java:14-18 | `overlaps`, by doubled centres and lengths; `OverlapsIffShare` proves it holds iff the closed spans share a coordinate, and `OverlapsSymmetric` that it is symmetric |
| Model.Element1D.Displacement | src/main/java/kweimann/mezzure/model/Element1D.java:21-31 | `displacement`, with Java's truncating division; `DisplacementSpec` proves it is the signed gap between the outer points, 0 exactly on overlap, and `DisplacementAntisymmetric` that swapping the arguments negates it |
| Model.Element1D.Distance | src/main/java/kweimann/mezzure/model/Element1D.java:34-36 | `distance`; `DistanceSpec` proves it non-negative, symmetric and 0 exactly on overlap |
| Model.PointMove | src/main/java/kweimann/mezzure/model/Point.java:23-26 | moving adds `n` to the coordinate; moves compose and `move(0)` is the identity |
| Model.PointCompareTo | src/main/java/kweimann/mezzure/model/Point.java:28-48 | `compareTo` orders by coordinate, is antisymmetric, is 0 exactly for equal points, and equal points hash alike |
| Model.PointOverlapsAndDisplacement | src/main/java/kweimann/mezzure/model/Point.java:13-21 | two points overlap iff they are equal; their displacement is the difference of their coordinates |
| Model.PointInInterval | src/main/java/kweimann/mezzure/model/Interval.java:38-46 | a point and an interval overlap, in either order, iff the point lies in the closed interval |
| Model.IntervalsOverlap | src/main/java/kweimann/mezzure/model/Interval.java:38-46 | two intervals overlap iff neither ends before the other starts; touching ends overlap |
| Model.NewIntervalSymmetric | src/main/java/kweimann/mezzure/model/Interval.java:8-16 | the argument order does not matter, and the interval runs from the smaller point to the larger |
| Model.IntervalLengthAndCenter | src/main/java/kweimann/mezzure/model/Interval.java:38-46 | the length is at least 1; the centre is the start plus half the length, rounded down, and lies in `[start, end)` |
| Model.IntervalMove | src/main/java/kweimann/mezzure/model/Interval.java:48-51 | both boundaries shift by `n`, the length is kept, and `move(0)` is the identity |
| Model.IntervalResizeBy | src/main/java/kweimann/mezzure/model/Interval.java:26-28 | `resize(d)` is `resize(-d, d)` and fails exactly when the length plus `2d` is not positive |
| Model.IntervalHashCode | src/main/java/kweimann/mezzure/model/Interval.java:53-71 | equal intervals hash alike; the hash is `1369 + 37 * start + end` |
| Collections.Padded | src/main/java/kweimann/mezzure/util/Collections.java:57-69 | the padded collection is `padding` nulls, the elements, then `padding` nulls |
| Collections.PaddedAt | src/main/java/kweimann/mezzure/util/Collections.java:57-69 | slot `k` of the padded collection is element `k - padding`, or null outside the collection |
| Collections.WindowsCount | src/main/java/kweimann/mezzure/util/Collections.java:57-69 | a sequence has `max(0, n - size + 1)` windows of a given size |
| Collections.WindowAt | src/main/java/kweimann/mezzure/util/Collections.java:57-69 | window `k` is the slice `[k, k + size)` |
| Collections.SlidingWindowsCount | src/main/java/kweimann/mezzure/util/Collections.java:57-69 | `slideWindow(xs, size, padding)` hands out `max(0, n + 2 * padding - size + 1)` windows |
| Collections.SlidingWindowAt | src/main/java/kweimann/mezzure/util/Collections.java:57-69 | every window has `size` slots, and slot `j` of window `k` is element `k + j - padding`, or null |
| Collections.SlidingWindows | src/main/java/kweimann/mezzure/util/Collections.java:57-69 | the windows `slideWindow(xs, size, padding)` yields; `SlidingWindowsCount` and `SlidingWindowAt` specify them |
| Collections.Window.constructor | src/main/java/kweimann/mezzure/util/Collections.java:14-17 | a new ring buffer of the given capacity is empty |
| Collections.Window.Size | src/main/java/kweimann/mezzure/util/Collections.java:25-28 | `size()` is the number of slots held, at most the capacity |
| Collections.Window.Get | src/main/java/kweimann/mezzure/util/Collections.java:19-23 | `get(i)` returns the `i`-th oldest slot for `0 <= i < size()`, and `NoSuchElementException` otherwise |
| Collections.Window.Add | src/main/java/kweimann/mezzure/util/Collections.java:30-33 | `add` appends at the logical end when there is room and changes nothing when full |
| Collections.Window.Slide | src/main/java/kweimann/mezzure/util/Collections.java:35-40 | on a full buffer, `slide` returns the oldest slot and the contents become the rest plus `next` |
| Collections.SlidingWindowIterator.constructor | src/main/java/kweimann/mezzure/util/Collections.java:66-84 | the initialiser leaves the buffer holding the first `size - 1` padded slots, with no window handed out yet |
| Collections.SlidingWindowIterator.FillWindow | src/main/java/kweimann/mezzure/util/Collections.java:71-84 | the initialiser's three loops fill the buffer with the leading nulls, the input and the trailing nulls while fewer than `size - 1` slots are held, and leave the counters matching what was taken in |
| Collections.SlidingWindowIterator.HasNextSpec | src/main/java/kweimann/mezzure/util/Collections.java:86-89 | `hasNext()` holds exactly while windows remain |
| Collections.SlidingWindowIterator.Next | src/main/java/kweimann/mezzure/util/Collections.java:91-103 | `next()` returns the shared buffer, which then holds the next window of `SlidingWindows`; with none left it throws `NoSuchElementException` after counting the trailing nulls down once more, and changes nothing else |
| Collections.SlidingWindowIterator.TakeIn | src/main/java/kweimann/mezzure/util/Collections.java:99-100 | the slot taken in enters the buffer, sliding out the oldest slot when full, so the buffer again holds the last `size` slots |
| Collections.SlideWindow | src/main/java/kweimann/mezzure/util/Collections.java:64-69 | `IllegalArgumentException` exactly when `padding >= size`; otherwise a fresh iterator over the input |
| DrawingContext.DefaultConfiguration | src/main/java/kweimann/mezzure/view/MezzureConfiguration.java:85-90 | a builder's defaults: one row as wide and as high as the canvas, with no margins |
| DrawingContext.CeilDivSpec | src/main/java/kweimann/mezzure/view/MezzureDrawingContext.java:227-229 | `ceilDiv(x, n)` is the least `q` with `x <= q * n` |
| DrawingContext.CeilDiv | src/main/java/kweimann/mezzure/view/MezzureDrawingContext.java:227-229 | `ceilDiv(x, n)`; `CeilDivSpec` proves it is the least `q` with `x <= q * n` |
| DrawingContext.SectionCountSpec | src/main/java/kweimann/mezzure/view/MezzureDrawingContext.java:215-225 | `sectionCount(h)` is the number of whole rows that fit above canvas line `h` |
| DrawingContext.SectionCountMonotone | src/main/java/kweimann/mezzure/view/MezzureDrawingContext.java:219-225 | no rows fit above the top offset, and a taller canvas never holds fewer rows |
| DrawingContext.SectionCount | src/main/java/kweimann/mezzure/view/MezzureDrawingContext.java:215-225 | `sectionCount()`; `SectionCountSpec` proves it counts the whole rows that fit, `SectionCountMonotone` that it grows with the canvas, and `DefaultHasOneRow` that a default canvas holds one row |
| DrawingContext.GetStart | src/main/java/kweimann/mezzure/view/MezzureDrawingContext.java:100-102 | `getStart()` is coordinate 0; `SectionXYSpec` proves it is drawn at offset 0 of row 0 |
| DrawingContext.GetEnd | src/main/java/kweimann/mezzure/view/MezzureDrawingContext.java:105-107 | `getEnd()` is `sectionWidth * sectionCount()`; `EndIsEndOfLastRow` proves it is drawn at the right border of the last row |
| DrawingContext.DefaultHasOneRow | src/main/java/kweimann/mezzure/view/MezzureDrawingContext.java:215-217 | a default configuration is valid and shows exactly one row |
| DrawingContext.SectionXAsWrittenMisplacesOrigin | src/main/java/kweimann/mezzure/view/MezzureDrawingContext.java:195-199 | as written, with one-pixel rows the origin drawn end-first gets offset 1 in row 0, so row and offset no longer recompose to 0 |
| DrawingContext.SectionXCorrection | src/main/java/kweimann/mezzure/view/MezzureDrawingContext.java:195-199 | the corrected offset differs from the written one only for the origin in one-pixel rows drawn end-first |
| DrawingContext.SectionX | src/main/java/kweimann/mezzure/view/MezzureDrawingContext.java:195-199 | `getSectionX` with the origin corrected (see Findings); `SectionXCorrection` proves it differs from the written form only at the origin of one-pixel rows drawn end-first, and `SectionXYSpec` bounds it and recomposes the coordinate |
| DrawingContext.SectionY | src/main/java/kweimann/mezzure/view/MezzureDrawingContext.java:201-205 | `getSectionY`; `SectionXYSpec` proves that row times width plus the offset gives the coordinate back, and `EndIsEndOfLastRow` that the end lies in the last row |
| DrawingContext.SectionXYSpec | src/main/java/kweimann/mezzure/view/MezzureDrawingContext.java:195-213 | for the corrected offset (see Findings), row times row width plus offset recomposes the coordinate; start-first offsets lie in `[0, w)` and end-first offsets in `[1, w]` |
| DrawingContext.EndIsEndOfLastRow | src/main/java/kweimann/mezzure/view/MezzureDrawingContext.java:24-30 | for the corrected offset (see Findings), the end of the line is drawn at the right border of the last row |
| DrawingContext.GetPoint | src/main/java/kweimann/mezzure/view/MezzureDrawingContext.java:76-98 | with `fitToSection` a point is always found |
| DrawingContext.GetPointFitted | src/main/java/kweimann/mezzure/view/MezzureDrawingContext.java:80-86 | a fitted point's row is clamped to `[-1, sectionCount]`; its offset is 0 left of the row, the row width right of it and the column minus `sectionStart` inside it; the point is row times width plus offset |
| DrawingContext.FitOffsetSpec | src/main/java/kweimann/mezzure/view/MezzureDrawingContext.java:81 | the fitted offset `min(max(0, canvasX - sectionStart), sectionWidth)` is 0 left of the row, the row width right of it, and `canvasX - sectionStart` inside it |
| DrawingContext.FittedPointPastEnd | src/main/java/kweimann/mezzure/view/MezzureDrawingContext.java:80-86 | a concrete case where fitting below the last row yields a point past `getEnd()` |
| DrawingContext.GetPointInRow | src/main/java/kweimann/mezzure/view/MezzureDrawingContext.java:88-94 | a canvas position inside a row maps to that row's coordinate when its column lies within the row, and to null otherwise |
| DrawingContext.GetPointInGap | src/main/java/kweimann/mezzure/view/MezzureDrawingContext.java:88-94 | a canvas line between rows maps to null |
| IntervalSet.OverlapsIsMeet | src/main/java/kweimann/mezzure/model/Interval.java:38-46 | `overlaps` between intervals is the closed-form `Meet`, which is symmetric |
| IntervalSet.SeparatedIff | src/main/java/kweimann/mezzure/controller/MezzureEventHandler.java:26 | the set is separated iff it is sorted by start and pairwise non-overlapping |
| IntervalSet.StartIndexSpec | src/main/java/kweimann/mezzure/controller/MezzureEventHandler.java:26 | the comparator lookup finds the first element with the same start |
| IntervalSet.HasStartSeparated | src/main/java/kweimann/mezzure/controller/MezzureEventHandler.java:26 | a member is found as itself; an interval that meets nothing has no element with its start |
| IntervalSet.InsertPositionSpec | src/main/java/kweimann/mezzure/controller/MezzureEventHandler.java:26 | the insert position separates smaller starts from the rest |
| IntervalSet.InsertPresent | src/main/java/kweimann/mezzure/controller/MezzureEventHandler.java:116 | `TreeSet.add` of an element with a start already present changes nothing |
| IntervalSet.InsertAbsent | src/main/java/kweimann/mezzure/controller/MezzureEventHandler.java:116 | otherwise it splices the element in at its position |
| IntervalSet.InsertMembers | src/main/java/kweimann/mezzure/controller/MezzureEventHandler.java:116 | insertion keeps the order and, for a new start, adds exactly the new element |
| IntervalSet.InsertSeparated | src/main/java/kweimann/mezzure/controller/MezzureEventHandler.java:113-119 | inserting an interval that meets no member keeps the set separated and adds exactly it |
| IntervalSet.Insert | src/main/java/kweimann/mezzure/controller/MezzureEventHandler.java:116 | `TreeSet.add` under the start comparator; `InsertPresent`, `InsertAbsent`, `InsertMembers` and `InsertSeparated` specify it |
| IntervalSet.RemoveSpec | src/main/java/kweimann/mezzure/controller/MezzureEventHandler.java:203 | `TreeSet.remove` drops the element with the same start, if any |
| IntervalSet.SeparatedDrop | src/main/java/kweimann/mezzure/controller/MezzureEventHandler.java:203 | dropping an element keeps the set separated |
| IntervalSet.DropMembers | src/main/java/kweimann/mezzure/controller/MezzureEventHandler.java:203 | dropping removes exactly the elements with that start |
| IntervalSet.RemoveSeparated | src/main/java/kweimann/mezzure/controller/MezzureEventHandler.java:202-203 | removal keeps the set separated, removes exactly the elements with that start, and shrinks it by one for a member |
| IntervalSet.Remove | src/main/java/kweimann/mezzure/controller/MezzureEventHandler.java:203 | `TreeSet.remove` under the start comparator; `RemoveSpec`, `DropMembers` and `RemoveSeparated` specify it |
| IntervalSet.FirstOverlapSpec | src/main/java/kweimann/mezzure/controller/MezzureEventHandler.java:180-184 | `overlaps(element)` is null iff no interval overlaps the element; otherwise it is the first one that does |
| IntervalSet.FirstOverlap | src/main/java/kweimann/mezzure/controller/MezzureEventHandler.java:180-184 | `overlaps(element)`; `FirstOverlapSpec` proves it null iff nothing overlaps, and otherwise the first interval that does |
| ControllerSpec.DistancesSpec | src/main/java/kweimann/mezzure/model/Element1D.java:34-36 | the closed-form distances equal `Element1D.distance`, in both orders |
| ControllerSpec.SelectionDistanceSpec | src/main/java/kweimann/mezzure/controller/MezzureEventHandler.java:170 | a selection's distance is the distance of its selected element |
| ControllerSpec.InReachSpec | src/main/java/kweimann/mezzure/controller/MezzureEventHandler.java:155 | an interval is a candidate iff it overlaps the point or lies within 10 of it, that is, iff the point lies in the interval widened by 10 |
| ControllerSpec.CandidateSpec | src/main/java/kweimann/mezzure/controller/MezzureEventHandler.java:158-168 | an end point is picked only when it is strictly closer than the other end and within 10, and its `notSelected` is the other end; otherwise the whole interval is picked |
| ControllerSpec.SelectionUpToSpec | src/main/java/kweimann/mezzure/controller/MezzureEventHandler.java:150-178 | after scanning a prefix, the selection is null iff no interval was in reach; otherwise it is the first in-reach candidate of least distance |
| ControllerSpec.SelectionSpec | src/main/java/kweimann/mezzure/controller/MezzureEventHandler.java:150-178 | `getSelection` is null iff no interval is in reach; otherwise its selected element is no farther from the point than any other candidate's |
| ControllerSpec.SelectionAt | src/main/java/kweimann/mezzure/controller/MezzureEventHandler.java:150-178 | `getSelection(point)`; `SelectionUpToSpec` and `SelectionSpec` prove it null iff no interval is in reach, and otherwise the first in-reach candidate of least distance |
| ControllerSpec.NotSelected | src/main/java/kweimann/mezzure/controller/MezzureEventHandler.java:420-424 | defined exactly for an end point of the parent, and then it gives the other end point |
| ControllerSpec.GapSpec | src/main/java/kweimann/mezzure/controller/MezzureEventHandler.java:232-239 | the blank interval between neighbours runs from one past the previous end to one before the next start (or the line's ends); it is null iff empty, and in a separated set it meets no interval |
| ControllerSpec.IntervalInBetween | src/main/java/kweimann/mezzure/controller/MezzureEventHandler.java:232-239 | `getIntervalInBetween(prev, next)`; `GapSpec` proves that, for neighbours in the set, it runs from one past the previous end to one before the next start, is null iff that is empty, and meets no interval of a separated set |
| ControllerSpec.BlankIntervalsDefined | src/main/java/kweimann/mezzure/controller/MezzureEventHandler.java:121-133 | in a separated set, the interval between consecutive neighbours never throws |
| ControllerSpec.ContainsSpec | src/main/java/kweimann/mezzure/controller/MezzureEventHandler.java:225 | the closed-form containment is `dragSpace.overlaps(dragStart)` |
| ControllerSpec.ResizeEventStep | src/main/java/kweimann/mezzure/controller/MezzureEventHandler.java:223-227 | one iteration of the window loop: return a resize in the current gap if it holds the start, else continue |
| ControllerSpec.ResizeEventFromSpec | src/main/java/kweimann/mezzure/controller/MezzureEventHandler.java:221-230 | `getResizeEvent` is null iff no blank interval holds the drag start; otherwise the drag space holds it and meets no remaining interval |
| ControllerSpec.ClampDisplacementSpec | src/main/java/kweimann/mezzure/controller/MezzureEventHandler.java:264-274 | the clamped displacement keeps the moved interval on the line, has the sign of the requested one and no larger size, and is unchanged when no clamping is needed |
| ControllerSpec.Moved | src/main/java/kweimann/mezzure/controller/MezzureEventHandler.java:264-274 | the moved interval is the origin shifted by `d` |
| ControllerSpec.ClosestOverlapUpToSpec | src/main/java/kweimann/mezzure/controller/MezzureEventHandler.java:325-337 | `getClosestOverlappingInterval` is null iff nothing meets the updated interval; otherwise it meets it with the least centre distance |
| ControllerSpec.ClosestOverlapFirstOnTies | src/main/java/kweimann/mezzure/controller/MezzureEventHandler.java:326-335 | the strict `>` makes the first of equally close intervals win: every earlier interval that meets the update is strictly farther from its centre |
| ControllerSpec.IndexOf | src/main/java/kweimann/mezzure/controller/MezzureEventHandler.java:286-323 | the first index holding the interval, or the length when absent |
| ControllerSpec.AdjustAt | src/main/java/kweimann/mezzure/controller/MezzureEventHandler.java:286-323 | the adjustment is the placement around the first window whose middle is the closest overlap |
| ControllerSpec.PlaceSpec | src/main/java/kweimann/mezzure/controller/MezzureEventHandler.java:293-316 | a blocker whose centre lies right of the pointer takes the interval flush before it when the slot from the previous end (or the line start) leaves room, else the interval keeps its old position; otherwise it goes flush after the blocker when the slot up to the next start (or the line end) leaves room, else it stays; the result never overlaps a remaining interval |
| ControllerSpec.PlaceSides | src/main/java/kweimann/mezzure/controller/MezzureEventHandler.java:295-316 | the two sides of the placement: left slot `[start - len - 1, start - 1]` exactly when the pointer is left of the centre and the slot is clear of the previous neighbour and the line start; right slot `[end + 1, end + len + 1]` in the mirror case; otherwise the old position |
| ControllerSpec.Place | src/main/java/kweimann/mezzure/controller/MezzureEventHandler.java:293-316 | the placement around one blocker; `PlaceSides` and `PlaceSpec` state which slot it picks and that it introduces no overlap |
| ControllerSpec.AdjustOnOverlapSpec | src/main/java/kweimann/mezzure/controller/MezzureEventHandler.java:286-323 | with no overlap the update is kept; otherwise the closest blocker decides, as in `PlaceSpec`: the slot on the pointer's side of its centre when it fits between the blocker's neighbours, else the old position; overlaps are never introduced |
| ControllerSpec.AdjustOnOverlap | src/main/java/kweimann/mezzure/controller/MezzureEventHandler.java:286-323 | `adjustIntervalOnOverlap`; `AdjustOnOverlapSpec` states its outcome |
| ControllerSpec.MoveUpdateSpec | src/main/java/kweimann/mezzure/controller/MezzureEventHandler.java:264-274 | a move keeps the interval's length and never makes it overlap a remaining interval |
| ControllerSpec.MoveUpdate | src/main/java/kweimann/mezzure/controller/MezzureEventHandler.java:264-274 | `IntervalMove.updated`; `MoveUpdateSpec` proves it keeps the length and never overlaps a remaining interval |
| ControllerSpec.FitToDragSpaceSpec | src/main/java/kweimann/mezzure/controller/MezzureEventHandler.java:377-381 | `fitToDragSpace` clamps the position into the drag space, and keeps a position already inside |
| ControllerSpec.ResizeUpdateSpec | src/main/java/kweimann/mezzure/controller/MezzureEventHandler.java:359-365 | at the drag start the result is unchanged; elsewhere it spans the drag start and the fitted position inside the drag space |
| ControllerSpec.ResizeUpdate | src/main/java/kweimann/mezzure/controller/MezzureEventHandler.java:359-365 | `IntervalResize.updated`; `ResizeUpdateSpec` states its result |
| ControllerSpec.Update | src/main/java/kweimann/mezzure/controller/MezzureEventHandler.java:58-79 | a drag update keeps the drag's origin |
| ControllerSpec.InitialInv | src/main/java/kweimann/mezzure/controller/MezzureEventHandler.java:26 | the empty handler satisfies the invariant |
| ControllerSpec.SeparatedMembers | src/main/java/kweimann/mezzure/controller/MezzureEventHandler.java:26 | distinct members of a separated set do not meet and have distinct starts |
| ControllerSpec.AddIntervalSpec | src/main/java/kweimann/mezzure/controller/MezzureEventHandler.java:113-119 | `addInterval` throws iff the interval overlaps a member; otherwise it adds exactly it, keeps the set separated and changes nothing else |
| ControllerSpec.CreateConsistent | src/main/java/kweimann/mezzure/controller/MezzureEventHandler.java:215-218 | a create drag is consistent with the set |
| ControllerSpec.MoveConsistent | src/main/java/kweimann/mezzure/controller/MezzureEventHandler.java:198-205 | a move drag is consistent with the set |
| ControllerSpec.ResizeConsistent | src/main/java/kweimann/mezzure/controller/MezzureEventHandler.java:206-213 | a resize drag is consistent with the set |
| ControllerSpec.DragEventForConsistent | src/main/java/kweimann/mezzure/controller/MezzureEventHandler.java:194-219 | every drag `getDragEvent` starts is consistent with the set |
| ControllerSpec.ReplaceSpec | src/main/java/kweimann/mezzure/controller/MezzureEventHandler.java:58-79 | replacing the dragged interval by one that meets no other keeps the set separated and swaps exactly those elements |
| ControllerSpec.MoveToInv | src/main/java/kweimann/mezzure/controller/MezzureEventHandler.java:58-79 | a move step keeps the invariant |
| ControllerSpec.ResizeToInv | src/main/java/kweimann/mezzure/controller/MezzureEventHandler.java:58-79 | a resize step keeps the invariant |
| ControllerSpec.DragToInv | src/main/java/kweimann/mezzure/controller/MezzureEventHandler.java:58-79 | every drag step keeps the invariant |
| ControllerSpec.PressInv | src/main/java/kweimann/mezzure/controller/MezzureEventHandler.java:38-41 | a press keeps the invariant |
| ControllerSpec.DoubleClickInv | src/main/java/kweimann/mezzure/controller/MezzureEventHandler.java:46-57 | a double click keeps the invariant and never adds an interval |
| ControllerSpec.StepPreservesInv | src/main/java/kweimann/mezzure/controller/MezzureEventHandler.java:34-103 | every event keeps the invariant |
| ControllerSpec.RunPreservesInv | src/main/java/kweimann/mezzure/controller/MezzureEventHandler.java:34-103 | after any event sequence the set is sorted by start and pairwise disjoint, and the invariant holds |
| ControllerSpec.PressSpec | src/main/java/kweimann/mezzure/controller/MezzureEventHandler.java:38-41 | a press with no drag starts `getDragEvent` at the position and changes neither the set nor the notifications |
| ControllerSpec.ReleaseSpec | src/main/java/kweimann/mezzure/controller/MezzureEventHandler.java:42-45 | a release ends the drag and notifies the listener exactly when one is set and the result differs from the origin |
| ControllerSpec.DoubleClickSpec | src/main/java/kweimann/mezzure/controller/MezzureEventHandler.java:46-57 | a double click inside an interval removes exactly it and reports the removal; elsewhere it changes nothing |
| ControllerSpec.Press | src/main/java/kweimann/mezzure/controller/MezzureEventHandler.java:38-41 | the press branch; `PressSpec` and `PressInv` specify it |
| ControllerSpec.Release | src/main/java/kweimann/mezzure/controller/MezzureEventHandler.java:42-45 | the release branch; `ReleaseSpec` specifies it |
| ControllerSpec.DoubleClick | src/main/java/kweimann/mezzure/controller/MezzureEventHandler.java:46-57 | the double-click branch; `DoubleClickSpec` and `DoubleClickInv` specify it |
| ControllerSpec.DragTo | src/main/java/kweimann/mezzure/controller/MezzureEventHandler.java:58-79 | the drag branch; `DragToInv` proves it keeps the invariant |
| ControllerSpec.Step | src/main/java/kweimann/mezzure/controller/MezzureEventHandler.java:34-103 | `handle(event)`; `StepPreservesInv` and `RunPreservesInv` prove every event keeps the set separated, and `IdleMoveKeepsSet` that idle events only move the cursor |
| ControllerSpec.HitIsFirstOverlap | src/main/java/kweimann/mezzure/controller/MezzureEventHandler.java:180-184 | in a separated set, the interval holding a point is the one `overlaps` finds |
| ControllerSpec.IdleMoveKeepsSet | src/main/java/kweimann/mezzure/controller/MezzureEventHandler.java:83-102 | with no drag, another event only updates the cursor |
| ControllerSpec.CreateScenario | src/main/java/kweimann/mezzure/controller/MezzureEventHandler.java:34-103 | press, drag and release on an empty line create `[20, 40]` and notify the drag and the change |
| ControllerSpec.DeleteScenario | src/main/java/kweimann/mezzure/controller/MezzureEventHandler.java:46-57 | a double click on `[5, 15]` deletes it and reports the deletion |
| ControllerSpec.ResizeScenario | src/main/java/kweimann/mezzure/controller/MezzureEventHandler.java:344-382 | dragging the end of `[10, 30]` to 50 stops it at 39, before `[40, 60]` |
| ControllerSpec.MoveScenario | src/main/java/kweimann/mezzure/controller/MezzureEventHandler.java:247-342 | moving `[0, 10]` onto `[20, 30]` places it flush before it, at `[9, 19]` |
| Controller.NextWindow | src/main/java/kweimann/mezzure/util/Collections.java:91-103 | one call of `next()` yields the window at the current index |
| Controller.NextGap | src/main/java/kweimann/mezzure/controller/MezzureEventHandler.java:223-224 | one window of size 2 and padding 1 gives the blank interval at the current index |
| Controller.NextNeighbours | src/main/java/kweimann/mezzure/controller/MezzureEventHandler.java:286-323 | one window of size 3 and padding 1 gives an interval with its two neighbours |
| Controller.IntervalMove.constructor | src/main/java/kweimann/mezzure/controller/MezzureEventHandler.java:256-262 | a move starts with the interval at its origin |
| Controller.IntervalMove.Updated | src/main/java/kweimann/mezzure/controller/MezzureEventHandler.java:264-274 | `updated(dragEnd)` sets and returns the `MoveUpdate` of the old state |
| Controller.IntervalMove.AdjustIntervalOnOverlap | src/main/java/kweimann/mezzure/controller/MezzureEventHandler.java:286-323 | the loop computes `AdjustOnOverlap` |
| Controller.IntervalMove.GetClosestOverlappingInterval | src/main/java/kweimann/mezzure/controller/MezzureEventHandler.java:325-337 | the loop computes `ClosestOverlap` |
| Controller.IntervalMove.Distance | src/main/java/kweimann/mezzure/controller/MezzureEventHandler.java:339-341 | the distance between two coordinates is what separates them, in either order |
| Controller.IntervalResize.constructor | src/main/java/kweimann/mezzure/controller/MezzureEventHandler.java:352-357 | a resize starts with the interval at its origin |
| Controller.IntervalResize.Updated | src/main/java/kweimann/mezzure/controller/MezzureEventHandler.java:359-365 | `updated(dragEnd)` sets and returns the `ResizeUpdate` of the old state |
| Controller.MezzureEventHandler.constructor | src/main/java/kweimann/mezzure/controller/MezzureEventHandler.java:30-33 | a new handler is in the initial state |
| Controller.MezzureEventHandler.SetListener | src/main/java/kweimann/mezzure/controller/MezzureEventHandler.java:105-107 | installs or removes the listener and keeps the invariant |
| Controller.MezzureEventHandler.AddInterval | src/main/java/kweimann/mezzure/controller/MezzureEventHandler.java:113-119 | throws `IllegalArgumentException` and changes nothing exactly when the spec does; otherwise takes the spec's new state, and the set stays separated |
| Controller.MezzureEventHandler.GetSelection | src/main/java/kweimann/mezzure/controller/MezzureEventHandler.java:150-178 | the loop computes `SelectionAt` |
| Controller.MezzureEventHandler.Overlaps | src/main/java/kweimann/mezzure/controller/MezzureEventHandler.java:180-184 | the loop computes `FirstOverlap` |
| Controller.MezzureEventHandler.IntervalInBetween | src/main/java/kweimann/mezzure/controller/MezzureEventHandler.java:232-239 | a blank interval lies strictly between its neighbours |
| Controller.MezzureEventHandler.GetResizeEvent | src/main/java/kweimann/mezzure/controller/MezzureEventHandler.java:221-230 | the window loop finds a resize exactly when `ResizeEventFor` does, and in the same state |
| Controller.MezzureEventHandler.GetDragEvent | src/main/java/kweimann/mezzure/controller/MezzureEventHandler.java:194-219 | builds a fresh drag object in the state `DragEventFor` gives |
| Controller.MezzureEventHandler.Handle | src/main/java/kweimann/mezzure/controller/MezzureEventHandler.java:34-103 | `handle(event)` takes the handler to `Step` of its old state and keeps the invariant |
| Controller.MezzureEventHandler.HandlePress | src/main/java/kweimann/mezzure/controller/MezzureEventHandler.java:38-41 | the press branch computes `Press` |
| Controller.MezzureEventHandler.HandleRelease | src/main/java/kweimann/mezzure/controller/MezzureEventHandler.java:42-45 | the release branch computes `Release` |
| Controller.MezzureEventHandler.HandleDoubleClick | src/main/java/kweimann/mezzure/controller/MezzureEventHandler.java:46-57 | the double-click branch computes `DoubleClick` and leaves the drag alone |
| Controller.MezzureEventHandler.HandleDrag | src/main/java/kweimann/mezzure/controller/MezzureEventHandler.java:58-79 | the drag branch computes `DragTo` |
| Controller.MezzureEventHandler.UpdateCursor | src/main/java/kweimann/mezzure/controller/MezzureEventHandler.java:83-102 | the cursor becomes `CursorFor` the position; nothing else changes |
| LegacyGeometry.LayoutConstants | src/main/java/kweimann/mezzure/IntervalsUtil.java:5-12 | the row width is `sectionEnd - sectionStart` and the row pitch is `sectionHeight + distanceBetweenSections` |
| LegacyGeometry.SectionCountSpec | src/main/java/kweimann/mezzure/IntervalsUtil.java:116-127 | `sectionCount(Y)` counts the rows whose bottom lies at or above `Y`; the canvas holds 15 rows |
| LegacyGeometry.LineBounds | src/main/java/kweimann/mezzure/IntervalsUtil.java:14-15 | the line runs from position 0 to position 12000, which is `(800, 14)` |
| LegacyGeometry.AbsoluteXOfPointAt | src/main/java/kweimann/mezzure/IntervalsUtil.java:98-110 | `absoluteX(point(a, s)) == a` for every position |
| LegacyGeometry.PointAtSpec | src/main/java/kweimann/mezzure/IntervalsUtil.java:102-110 | at a row boundary `stickToStart` picks the next row's start and otherwise the previous row's end; elsewhere both agree |
| LegacyGeometry.PointAtAbsoluteX | src/main/java/kweimann/mezzure/IntervalsUtil.java:98-110 | `point(absoluteX(p), true)` gives back a point that starts a row |
| LegacyGeometry.PointAt | src/main/java/kweimann/mezzure/IntervalsUtil.java:105-110 | `point(absoluteX, stickToStart)`; `AbsoluteXOfPointAt`, `PointAtSpec` and `PointAtAbsoluteX` specify it |
| LegacyGeometry.MoveSpec | src/main/java/kweimann/mezzure/Point.java:26-38 | `move(units, s)` advances the position by `units`; `distance` then gives `units` back; `move(0)` is the identity |
| LegacyGeometry.Point.Move | src/main/java/kweimann/mezzure/Point.java:35-38 | `move(units, stickToStart)`; `MoveSpec` proves it advances the position by `units` |
| LegacyGeometry.CompareToSpec | src/main/java/kweimann/mezzure/Point.java:49-60 | `compareTo` orders by position, is 0 exactly when `equals` holds, and is antisymmetric, as is `distance` |
| LegacyGeometry.RowEdgeEquals | src/main/java/kweimann/mezzure/Point.java:56-60 | the end of row `i` equals the start of row `i + 1` |
| LegacyGeometry.TranslateXSpec | src/main/java/kweimann/mezzure/IntervalsUtil.java:29-61 | a fitted column is 0 left of the row, the row width right of it and the column minus `sectionStart` inside it; an unfitted one is -1 exactly outside the row; `X` and `translateX` are inverse on the row |
| LegacyGeometry.TranslateX | src/main/java/kweimann/mezzure/IntervalsUtil.java:55-61 | `translateX(X, fitToBorder)`; `TranslateXSpec` specifies it |
| LegacyGeometry.TranslateIRow | src/main/java/kweimann/mezzure/IntervalsUtil.java:19-27 | an unfitted canvas line belongs to row `k` iff it lies within that row's band on the canvas |
| LegacyGeometry.TranslateIRange | src/main/java/kweimann/mezzure/IntervalsUtil.java:70-84 | an unfitted row is -1 or a row of the canvas |
| LegacyGeometry.TranslateIFitted | src/main/java/kweimann/mezzure/IntervalsUtil.java:70-84 | a fitted row is always a row of the canvas |
| LegacyGeometry.TranslateI | src/main/java/kweimann/mezzure/IntervalsUtil.java:70-84 | `translateI(Y, fitToBorder)`; `TranslateIRow`, `TranslateIRange` and `TranslateIFitted` specify it |
| LegacyGeometry.PointFromCanvasSpec | src/main/java/kweimann/mezzure/IntervalsUtil.java:39-46 | `point(X, Y, fit)` is null iff a coordinate is -1, never null when fitting, and always lies on the line |
| LegacyGeometry.PointFromCanvas | src/main/java/kweimann/mezzure/IntervalsUtil.java:42-46 | `point(X, Y, fitToBorder)`; `PointFromCanvasSpec` specifies it |
| LegacyGeometry.NewInterval | src/main/java/kweimann/mezzure/Interval.java:8-17 | succeeds exactly for unequal points; the interval spans their positions, in order |
| LegacyGeometry.NewIntervalSymmetric | src/main/java/kweimann/mezzure/Interval.java:8-17 | the argument order does not matter |
| LegacyGeometry.LengthAndCenter | src/main/java/kweimann/mezzure/Interval.java:19-25 | the length is the positive span; the centre is at half the length, inside the interval |
| LegacyGeometry.MoveInterval | src/main/java/kweimann/mezzure/Interval.java:38-41 | both ends move by `units`; the length is kept |
| LegacyGeometry.Resize | src/main/java/kweimann/mezzure/Interval.java:31-36 | succeeds exactly when the new start precedes the new end; the ends move by their differences |
| LegacyGeometry.ResizeBy | src/main/java/kweimann/mezzure/Interval.java:27-29 | `resize(d)` is `resize(-d, d)` and fails exactly when the length plus `2d` is not positive |
| LegacyGeometry.OverlapsSpec | src/main/java/kweimann/mezzure/Interval.java:43-54 | `overlaps` is symmetric; for points it is `equals`, for a point in an interval it is containment, and for intervals it is sharing a position |
| LegacyGeometry.PointIntervalDistance | src/main/java/kweimann/mezzure/Util.java:9-21 | point-to-interval distance is the nearer end's distance, in either order |
| LegacyGeometry.IntervalsDistance | src/main/java/kweimann/mezzure/Util.java:17-19 | interval-to-interval distance is the least of the four end-to-end distances |
| LegacyGeometry.DistanceSpec | src/main/java/kweimann/mezzure/Util.java:9-21 | `Util.distance` is symmetric, measures between ends only, and is positive for a point strictly inside an interval |
| LegacyGeometry.DistanceSymmetric | src/main/java/kweimann/mezzure/Util.java:9-21 | `Util.distance` gives the same value with its arguments swapped |
| LegacyIntervalSet.OverlapsIsMeet | src/main/java/kweimann/mezzure/Interval.java:43-54 | interval `overlaps` is the closed-form `Meet`, which is symmetric |
| LegacyIntervalSet.SeparatedIff | src/main/java/kweimann/mezzure/IntervalsEventHandler.java:22 | separated iff sorted by start and pairwise non-overlapping |
| LegacyIntervalSet.StartIndexSpec | src/main/java/kweimann/mezzure/IntervalsEventHandler.java:22 | the lookup finds the first element whose start is equal |
| LegacyIntervalSet.HasStartSeparated | src/main/java/kweimann/mezzure/IntervalsEventHandler.java:22 | a member is found as itself; an interval meeting nothing has no element with its start |
| LegacyIntervalSet.InsertPositionSpec | src/main/java/kweimann/mezzure/IntervalsEventHandler.java:22 | the insert position separates smaller starts from the rest |
| LegacyIntervalSet.InsertPresent | src/main/java/kweimann/mezzure/IntervalsEventHandler.java:22 | adding an element whose start is present changes nothing |
| LegacyIntervalSet.InsertAbsent | src/main/java/kweimann/mezzure/IntervalsEventHandler.java:22 | otherwise the element is spliced in at its position |
| LegacyIntervalSet.InsertMembers | src/main/java/kweimann/mezzure/IntervalsEventHandler.java:22 | insertion keeps the order and adds exactly the new element |
| LegacyIntervalSet.InsertSeparated | src/main/java/kweimann/mezzure/IntervalsEventHandler.java:22 | inserting an interval that meets no member keeps the set separated |
| LegacyIntervalSet.Insert | src/main/java/kweimann/mezzure/IntervalsEventHandler.java:62 | `TreeSet.add` under the start comparator; `InsertPresent`, `InsertAbsent`, `InsertMembers` and `InsertSeparated` specify it |
| LegacyIntervalSet.RemoveSpec | src/main/java/kweimann/mezzure/IntervalsEventHandler.java:22 | removal drops the element with an equal start, if any |
| LegacyIntervalSet.SeparatedDrop | src/main/java/kweimann/mezzure/IntervalsEventHandler.java:22 | dropping an element keeps the set separated |
| LegacyIntervalSet.DropMembers | src/main/java/kweimann/mezzure/IntervalsEventHandler.java:22 | dropping removes exactly the elements with that start |
| LegacyIntervalSet.RemoveSeparated | src/main/java/kweimann/mezzure/IntervalsEventHandler.java:22 | removal keeps the set separated and removes exactly the elements with that start |
| LegacyIntervalSet.Remove | src/main/java/kweimann/mezzure/IntervalsEventHandler.java:44 | `TreeSet.remove` under the start comparator; `RemoveSpec`, `DropMembers` and `RemoveSeparated` specify it |
| LegacyIntervalSet.FirstOverlapSpec | src/main/java/kweimann/mezzure/IntervalsEventHandler.java:149-153 | the search is null iff nothing overlaps; otherwise it finds the first interval that does |
| LegacyIntervalSet.FirstOverlap | src/main/java/kweimann/mezzure/IntervalsEventHandler.java:149-153 | `overlaps(point)`; `FirstOverlapSpec` specifies it |
| LegacyWindows.LinkedWindowIterator.constructor | src/main/java/kweimann/mezzure/Util.java:27-55 | the initialiser (nulls, up to `size - padding - 1` elements, then nulls for a short collection) leaves the iterator valid with no window handed out |
| LegacyWindows.LinkedWindowIterator.HasNextSpec | src/main/java/kweimann/mezzure/Util.java:57-60 | `hasNext()` holds exactly while windows remain, the same windows as `util/Collections` |
| LegacyWindows.LinkedWindowIterator.Next | src/main/java/kweimann/mezzure/Util.java:62-77 | `next()` returns the list, which then holds the next window of `SlidingWindows`; with none left, `NoSuchElementException` |
| LegacyControllerSpec.FitPosition | src/main/java/kweimann/mezzure/IntervalsEventHandler.java:155-161 | a fitted mouse position lies on the line |
| LegacyControllerSpec.DistancesSpec | src/main/java/kweimann/mezzure/Util.java:9-21 | the closed-form distances equal `Util.distance`, in both orders |
| LegacyControllerSpec.SelectionDistanceSpec | src/main/java/kweimann/mezzure/IntervalsEventHandler.java:139 | a selection's distance is `Util.distance` of its selected element |
| LegacyControllerSpec.InReachSpec | src/main/java/kweimann/mezzure/IntervalsEventHandler.java:125 | a candidate is an interval that overlaps the point or lies within 10 of it, that is, one whose widened span holds the position |
| LegacyControllerSpec.SelectionUpToSpec | src/main/java/kweimann/mezzure/IntervalsEventHandler.java:121-147 | after a prefix, the selection is null iff nothing was in reach, else the first in-reach candidate of least distance |
| LegacyControllerSpec.NotSelected | src/main/java/kweimann/mezzure/IntervalsEventHandler.java:355-359 | defined exactly for a point equal to an end of the parent, giving the other end; otherwise `NoSuchElementException` |
| LegacyControllerSpec.SelectionSpec | src/main/java/kweimann/mezzure/IntervalsEventHandler.java:121-147 | `getSelection` is null iff nothing is in reach; a selected end point is within 10 and has a defined `notSelected`; no candidate is closer |
| LegacyControllerSpec.SelectionAt | src/main/java/kweimann/mezzure/IntervalsEventHandler.java:121-147 | `getSelection(point)`; `SelectionUpToSpec` and `SelectionSpec` specify it |
| LegacyControllerSpec.GapSpec | src/main/java/kweimann/mezzure/IntervalsEventHandler.java:200-209 | the blank interval is null iff its two bounds coincide, and otherwise spans them in order |
| LegacyControllerSpec.ReversedGap | src/main/java/kweimann/mezzure/IntervalsEventHandler.java:200-209 | between adjacent neighbours the bounds are reversed and the blank interval spans the two touching ends |
| LegacyControllerSpec.GapFree | src/main/java/kweimann/mezzure/IntervalsEventHandler.java:190-209 | a blank interval holding a free position is a true gap: on the line and meeting no interval |
| LegacyControllerSpec.IntervalInBetween | src/main/java/kweimann/mezzure/IntervalsEventHandler.java:200-209 | `getIntervalInBetween(prev, next)`; `GapSpec`, `ReversedGap` and `GapFree` specify it |
| LegacyControllerSpec.HoldsSpec | src/main/java/kweimann/mezzure/IntervalsEventHandler.java:193 | the closed-form containment is `dragSpace.overlaps(dragStart)` |
| LegacyControllerSpec.ResizeEventStep | src/main/java/kweimann/mezzure/IntervalsEventHandler.java:191-195 | one window: a resize in the gap if it holds the start, else continue |
| LegacyControllerSpec.ResizeEventFromSpec | src/main/java/kweimann/mezzure/IntervalsEventHandler.java:190-198 | `getResizeEvent` is null iff no blank interval holds the start; for a free start the drag space is on the line and meets no interval |
| LegacyControllerSpec.ResizeEventFromNone | src/main/java/kweimann/mezzure/IntervalsEventHandler.java:190-198 | the loop from window `k` on returns null exactly when no gap from `k` on holds the drag start |
| LegacyControllerSpec.ResizeEventFromSome | src/main/java/kweimann/mezzure/IntervalsEventHandler.java:190-198 | a resize found from window `k` on starts at the drag start, keeps the origin as its result, and its drag space is one of the gaps from `k` on and holds the drag start |
| LegacyControllerSpec.ClampDistanceSpec | src/main/java/kweimann/mezzure/IntervalsEventHandler.java:233-237 | the clamped distance keeps the moved interval on the line, has the requested sign and no larger size, and is unchanged when possible |
| LegacyControllerSpec.FirstMeet | src/main/java/kweimann/mezzure/IntervalsEventHandler.java:248-283 | the index of the first remaining interval that meets the update |
| LegacyControllerSpec.PlaceSpec | src/main/java/kweimann/mezzure/IntervalsEventHandler.java:254-277 | a blocker whose centre compares greater than the pointer takes the interval flush before it, built with `move(-len - 1, true)` and `move(-1, false)`, when the slot from the previous end (or the line start) leaves room, else the interval keeps its old position; otherwise it goes flush after the blocker when the slot up to the next start (or the line end) leaves room, else it stays; the result stays on the line and never overlaps |
| LegacyControllerSpec.PlaceLeft | src/main/java/kweimann/mezzure/IntervalsEventHandler.java:254-263 | when the blocker's centre compares greater than the pointer, the placement is the left slot exactly when it is clear of the previous neighbour and the line start, and the old position otherwise |
| LegacyControllerSpec.PlaceRight | src/main/java/kweimann/mezzure/IntervalsEventHandler.java:264-273 | in the other case, the placement is the right slot exactly when it is clear of the next neighbour and the line end, and the old position otherwise |
| LegacyControllerSpec.LeftSlotBuilt | src/main/java/kweimann/mezzure/IntervalsEventHandler.java:261-262 | the interval built left of a blocker exists and spans `[lo - len - 1, lo - 1]` |
| LegacyControllerSpec.RightSlotBuilt | src/main/java/kweimann/mezzure/IntervalsEventHandler.java:271-272 | the interval built right of a blocker exists and spans `[hi + 1, hi + len + 1]` |
| LegacyControllerSpec.Place | src/main/java/kweimann/mezzure/IntervalsEventHandler.java:254-277 | the placement around the first blocker; `PlaceLeft`, `PlaceRight` and `PlaceSpec` specify it |
| LegacyControllerSpec.AdjustOnOverlapSpec | src/main/java/kweimann/mezzure/IntervalsEventHandler.java:248-283 | with no overlap the update is kept; otherwise the first blocker decides, as in `PlaceSpec`: the slot on the pointer's side of its centre when it fits between the blocker's neighbours, else the old position; never an overlap |
| LegacyControllerSpec.AdjustOnOverlap | src/main/java/kweimann/mezzure/IntervalsEventHandler.java:248-283 | `adjustIntervalOnOverlap`; `AdjustOnOverlapSpec` states its outcome |
| LegacyControllerSpec.MoveUpdateSpec | src/main/java/kweimann/mezzure/IntervalsEventHandler.java:231-241 | a move keeps the length, stays on the line, and never overlaps a remaining interval |
| LegacyControllerSpec.MoveUpdate | src/main/java/kweimann/mezzure/IntervalsEventHandler.java:231-241 | `IntervalMove.updated`; `MoveUpdateSpec` specifies it |
| LegacyControllerSpec.ResizeUpdateSpec | src/main/java/kweimann/mezzure/IntervalsEventHandler.java:299-316 | the fitted position lies in the drag space; at the drag start the result is unchanged, elsewhere it spans the start and the fitted position |
| LegacyControllerSpec.ResizeUpdate | src/main/java/kweimann/mezzure/IntervalsEventHandler.java:299-305 | `IntervalResize.updated`; `ResizeUpdateSpec` specifies it |
| LegacyControllerSpec.Update | src/main/java/kweimann/mezzure/IntervalsEventHandler.java:47-66 | a drag update keeps the kind of drag |
| LegacyControllerSpec.PrefixedSpec | src/main/java/kweimann/mezzure/IntervalsEventHandler.java:99-104 | labels painted one by one concatenate to the whole list |
| LegacyControllerSpec.BlankLabelsFromSpec | src/main/java/kweimann/mezzure/IntervalsEventHandler.java:99-104 | from index `k`, each pair of neighbours gives a label at the earlier end with the positive width of the gap |
| LegacyControllerSpec.BlankLabelsSpec | src/main/java/kweimann/mezzure/IntervalsEventHandler.java:99-104 | in a separated set, painting never throws and gives one label per gap, carrying the gap's width |
| LegacyControllerSpec.BlankLabels | src/main/java/kweimann/mezzure/IntervalsEventHandler.java:99-104 | the labels `paintBlankIntervals` paints; `BlankLabelsSpec` specifies them |
| LegacyControllerSpec.InitialInv | src/main/java/kweimann/mezzure/IntervalsEventHandler.java:22-27 | the empty handler satisfies the invariant |
| LegacyControllerSpec.SeparatedMembers | src/main/java/kweimann/mezzure/IntervalsEventHandler.java:22 | distinct members do not meet and have distinct starts |
| LegacyControllerSpec.CreateConsistent | src/main/java/kweimann/mezzure/IntervalsEventHandler.java:184-187 | a create drag from a free position is consistent with the set |
| LegacyControllerSpec.MoveConsistent | src/main/java/kweimann/mezzure/IntervalsEventHandler.java:167-174 | a move drag is consistent with the set |
| LegacyControllerSpec.ResizeConsistent | src/main/java/kweimann/mezzure/IntervalsEventHandler.java:175-182 | a resize drag from an end point is consistent with the set |
| LegacyControllerSpec.DragEventForConsistent | src/main/java/kweimann/mezzure/IntervalsEventHandler.java:163-188 | every drag `getDragEvent` starts is consistent with the set |
| LegacyControllerSpec.ReplaceSpec | src/main/java/kweimann/mezzure/IntervalsEventHandler.java:47-66 | replacing the dragged interval by one meeting no other keeps the set separated and swaps exactly them |
| LegacyControllerSpec.OnLineMembers | src/main/java/kweimann/mezzure/IntervalsEventHandler.java:22 | every member of a set on the line is on the line |
| LegacyControllerSpec.AllOnLineOf | src/main/java/kweimann/mezzure/IntervalsEventHandler.java:47-66 | a set built from members and one interval on the line is on the line |
| LegacyControllerSpec.MoveToInv | src/main/java/kweimann/mezzure/IntervalsEventHandler.java:47-66 | a move step succeeds and keeps the invariant, labels included |
| LegacyControllerSpec.ResizeToInv | src/main/java/kweimann/mezzure/IntervalsEventHandler.java:47-66 | a resize step succeeds and keeps the invariant, labels included |
| LegacyControllerSpec.PressInv | src/main/java/kweimann/mezzure/IntervalsEventHandler.java:32-35 | a press keeps the invariant |
| LegacyControllerSpec.DoubleClickInv | src/main/java/kweimann/mezzure/IntervalsEventHandler.java:38-46 | a double click succeeds and keeps the invariant |
| LegacyControllerSpec.StepPreservesInv | src/main/java/kweimann/mezzure/IntervalsEventHandler.java:28-90 | from a valid state no event throws, and each keeps the invariant |
| LegacyControllerSpec.RunPreservesInv | src/main/java/kweimann/mezzure/IntervalsEventHandler.java:28-90 | any event sequence succeeds and leaves the set sorted and pairwise disjoint, with the invariant |
| LegacyControllerSpec.PressSpec | src/main/java/kweimann/mezzure/IntervalsEventHandler.java:32-35 | a press starts `getDragEvent` at the position and keeps the set and the labels |
| LegacyControllerSpec.ReleaseSpec | src/main/java/kweimann/mezzure/IntervalsEventHandler.java:36-37 | a release only ends the drag and updates the cursor |
| LegacyControllerSpec.HitIsFirstHolding | src/main/java/kweimann/mezzure/IntervalsEventHandler.java:149-153 | in a separated set, the interval holding a position is the one `overlaps` finds |
| LegacyControllerSpec.DoubleClickSpec | src/main/java/kweimann/mezzure/IntervalsEventHandler.java:38-46 | a double click inside an interval removes exactly it and relabels the gaps; elsewhere nothing changes |
| LegacyControllerSpec.DoubleClickEffect | src/main/java/kweimann/mezzure/IntervalsEventHandler.java:38-46 | the double-click branch removes exactly the interval holding the point and relabels, or changes nothing when no interval holds it |
| LegacyControllerSpec.Press | src/main/java/kweimann/mezzure/IntervalsEventHandler.java:32-35 | the press branch; `PressSpec` and `PressInv` specify it |
| LegacyControllerSpec.DoubleClick | src/main/java/kweimann/mezzure/IntervalsEventHandler.java:38-46 | the double-click branch; `DoubleClickSpec`, `DoubleClickEffect` and `DoubleClickInv` specify it |
| LegacyControllerSpec.DragTo | src/main/java/kweimann/mezzure/IntervalsEventHandler.java:47-66 | the drag branch; `MoveToInv` and `ResizeToInv` prove it succeeds and keeps the invariant |
| LegacyControllerSpec.Step | src/main/java/kweimann/mezzure/IntervalsEventHandler.java:28-90 | `handle(event)`; `StepPreservesInv` and `RunPreservesInv` prove no event throws from a valid state and each keeps the invariant |
| LegacyControllerSpec.IdleMoveKeepsSet | src/main/java/kweimann/mezzure/IntervalsEventHandler.java:70-89 | with no drag, another event only updates the cursor |
| LegacyControllerSpec.LabelScenario | src/main/java/kweimann/mezzure/IntervalsEventHandler.java:99-104 | `[0, 10]` and `[20, 30]` give a single label of width 10 at position 10 |
| LegacyControllerSpec.ReversedGapScenario | src/main/java/kweimann/mezzure/IntervalsEventHandler.java:200-209 | `[0, 10]` and `[11, 20]` give the reversed blank interval `[10, 11]`, which meets both neighbours |
| LegacyControllerSpec.DeleteScenario | src/main/java/kweimann/mezzure/IntervalsEventHandler.java:38-46 | a double click on `[10, 20]` deletes it and clears the label |
| LegacyController.NextSlots | src/main/java/kweimann/mezzure/Util.java:62-77 | one call of `next()` yields the window at the current index |
| LegacyController.NextGap | src/main/java/kweimann/mezzure/IntervalsEventHandler.java:191-192 | one window of size 2 and padding 1 gives the blank interval at the current index |
| LegacyController.NextNeighbours | src/main/java/kweimann/mezzure/IntervalsEventHandler.java:248-283 | one window of size 3 and padding 1 gives an interval and its neighbours |
| LegacyController.NextPair | src/main/java/kweimann/mezzure/IntervalsEventHandler.java:92-104 | one window of size 2 and no padding gives two consecutive intervals |
| LegacyController.IntervalMove.constructor | src/main/java/kweimann/mezzure/IntervalsEventHandler.java:224-229 | a move starts with the interval at its origin |
| LegacyController.IntervalMove.Updated | src/main/java/kweimann/mezzure/IntervalsEventHandler.java:231-241 | `updated(dragEnd)` sets and returns the `MoveUpdate` of the old state |
| LegacyController.IntervalMove.AdjustIntervalOnOverlap | src/main/java/kweimann/mezzure/IntervalsEventHandler.java:248-283 | the loop computes `AdjustOnOverlap` |
| LegacyController.IntervalMove.PlaceNext | src/main/java/kweimann/mezzure/IntervalsEventHandler.java:250-278 | the loop body computes `Place` |
| LegacyController.IntervalResize.constructor | src/main/java/kweimann/mezzure/IntervalsEventHandler.java:293-297 | a resize starts with the interval at its origin |
| LegacyController.IntervalResize.Updated | src/main/java/kweimann/mezzure/IntervalsEventHandler.java:299-305 | `updated(dragEnd)` sets and returns the `ResizeUpdate` of the old state |
| LegacyController.IntervalsEventHandler.constructor | src/main/java/kweimann/mezzure/IntervalsEventHandler.java:24-27 | a new handler is in the initial state |
| LegacyController.IntervalsEventHandler.GetSelection | src/main/java/kweimann/mezzure/IntervalsEventHandler.java:121-147 | the loop computes `SelectionAt` |
| LegacyController.IntervalsEventHandler.Overlaps | src/main/java/kweimann/mezzure/IntervalsEventHandler.java:149-153 | the loop computes `FirstHolding` |
| LegacyController.IntervalsEventHandler.GetResizeEvent | src/main/java/kweimann/mezzure/IntervalsEventHandler.java:190-198 | the window loop finds a resize exactly when `ResizeEventFor` does, and in the same state |
| LegacyController.IntervalsEventHandler.GetDragEvent | src/main/java/kweimann/mezzure/IntervalsEventHandler.java:163-188 | builds a fresh drag object in the state `DragEventFor` gives |
| LegacyController.IntervalsEventHandler.ClearBlankIntervals | src/main/java/kweimann/mezzure/IntervalsEventHandler.java:92-97 | throws exactly when painting the labels would; on success the labels are cleared |
| LegacyController.IntervalsEventHandler.PaintBlankIntervals | src/main/java/kweimann/mezzure/IntervalsEventHandler.java:99-104 | appends exactly `BlankLabels` of the set, and throws when that does |
| LegacyController.IntervalsEventHandler.Handle | src/main/java/kweimann/mezzure/IntervalsEventHandler.java:28-90 | `handle(event)` throws exactly when `Step` does, otherwise reaches `Step`'s state; from a valid state it never throws and stays valid |
| LegacyController.IntervalsEventHandler.HandleDoubleClick | src/main/java/kweimann/mezzure/IntervalsEventHandler.java:38-46 | the double-click branch computes `DoubleClick` |
| LegacyController.IntervalsEventHandler.HandleDrag | src/main/java/kweimann/mezzure/IntervalsEventHandler.java:47-66 | the drag branch computes `DragTo` |
| LegacyController.IntervalsEventHandler.UpdateCursor | src/main/java/kweimann/mezzure/IntervalsEventHandler.java:70-89 | the cursor becomes `CursorFor` the position; nothing else changes |

## Left out

- Drawing: every call into the drawing context or the painter is left out. This covers `draw`, `clear`, `addText`, `clearText`, the hover marker (`lastHoverPosition`) and the canvas colours. The first version's labels of blank intervals are kept as a list of `(position, width)` pairs. The current version's labels are not kept, because they are drawn only.
- In the current version an event carries the two points that `getPosition` computes through `dc.getPoint`, one without fitting and one with it. In the first version an event carries integer canvas coordinates, and the model applies `IntervalsUtil.point` to them. The `(int)` cast from JavaFX's `double` coordinates is not modelled.
- `getIntervals()` returns the live set. The model exposes the set as a value, so aliasing through that view is not modelled.
- Java `int` is modelled by unbounded integers. Overflow past 2^31 on very large canvases is not modelled.
- The listener is modelled as a flag plus a log of the notifications it would receive. What a listener does in return is not modelled. This includes a listener that calls `addInterval` during a drag, which can break the drag's consistency with the set. `ControllerSpec.AddIntervalSpec` promises the invariant only when no drag is in progress.
- The iterators hand out windows as values of the shared buffer. The model does not capture callers that keep a window and read it after a later `next()`.
- `Collections.Window.Add`: a full buffer throws `RuntimeException` in the source. The model reports it as `ok == false`, and the iterator never adds to a full buffer.
- `LegacyWindows.LinkedWindowIterator.constructor`: `assert padding < size` becomes a precondition. Every caller passes a smaller padding.
- The `IllegalArgumentException("unknown selection")` and `"element not supported"` branches cannot be reached with the two kinds of selection and element, so they are left out.
- The state a handler is left in after an exception is not modelled beyond what its methods state.
- In the first version, `getIntervalInBetween` contains `assert a.compareTo(b) < 0`. The model takes assertions to be disabled, as the JVM does by default. Adjacent neighbours then produce a reversed blank interval (`LegacyControllerSpec.ReversedGap`), which can never hold a free drag start (`LegacyControllerSpec.GapFree`).
- A label's text is its width as an `int`. `Integer.toString` and the font are not modelled.
- `Point.toString` and `Interval.toString` of either version are not modelled.
- The interface method `Element1D.move` has no member of its own. It is folded into the `Move` of each datatype.

## Findings

| source | as written | input that shows it | evidently intended | confidence | as-written member | corrected member |
|---|---|---|---|---|---|---|
| src/main/java/kweimann/mezzure/view/MezzureDrawingContext.java:195-199 | `getSectionX` for an end-preferring point is `((x - 1) % w) + 1`, which for `x == 0` and `w == 1` is 1 | the default configuration of a 1×1 canvas, with `Point(0)` drawn end-first: row 0, offset 1 | the origin always sits at offset 0 of row 0, so that row times width plus offset recomposes to 0 | low, not executed | DrawingContext.SectionXAsWrittenMisplacesOrigin | DrawingContext.SectionXCorrection |
