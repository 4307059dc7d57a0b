/**
 * The live intervals: a `TreeSet` ordered by `Interval::start`, kept as the
 * sequence of its elements in iteration order. The comparator identifies
 * two intervals with the same start, so `add` and `remove` look at starts only.
 */
module IntervalSet {
  import opened Wrappers
  import opened Model

  /** Two intervals share a coordinate (closed spans). */
  predicate Meet(i: Interval, j: Interval)
  {
    i.start.x <= j.end.x && j.start.x <= i.end.x
  }

  /** `i.overlaps(j)` for two intervals is `Meet`. */
  lemma OverlapsIsMeet(i: Interval, j: Interval)
    ensures IntervalElement(i).Overlaps(IntervalElement(j)) <==> Meet(i, j)
    ensures Meet(i, j) <==> Meet(j, i)
  {
    IntervalsOverlap(i, j);
  }

  /** Every interval ends before the next one starts. */
  predicate Separated(s: seq<Interval>)
  {
    forall i, j :: 0 <= i < j < |s| ==> s[i].end.x < s[j].start.x
  }

  /** Iteration order is strictly increasing start order. */
  predicate SortedByStart(s: seq<Interval>)
  {
    forall i, j :: 0 <= i < j < |s| ==> s[i].start.x < s[j].start.x
  }

  /** No two distinct positions hold overlapping intervals. */
  predicate PairwiseDisjoint(s: seq<Interval>)
  {
    forall i, j :: 0 <= i < |s| && 0 <= j < |s| && i != j ==> !Meet(s[i], s[j])
  }

  /** Being separated is being sorted by start and pairwise non-overlapping. */
  lemma SeparatedIff(s: seq<Interval>)
    ensures Separated(s) <==> SortedByStart(s) && PairwiseDisjoint(s)
  {
    if Separated(s) {
      forall i, j | 0 <= i < j < |s|
        ensures s[i].start.x < s[j].start.x
      {
        assert s[i].start.x < s[i].end.x;
      }
    }
    if SortedByStart(s) && PairwiseDisjoint(s) {
      forall i, j | 0 <= i < j < |s|
        ensures s[i].end.x < s[j].start.x
      {
        assert !Meet(s[i], s[j]);
      }
    }
  }

  /** The first position holding an element with the start of `x`, or `|s|` if none. */
  function StartIndex(s: seq<Interval>, x: Interval): (k: nat)
    ensures k <= |s|
  {
    if |s| == 0 || s[0].start == x.start then 0 else 1 + StartIndex(s[1..], x)
  }

  /** Some element has the start of `x`: the comparator deems it equal to `x`. */
  predicate HasStart(s: seq<Interval>, x: Interval)
  {
    StartIndex(s, x) < |s|
  }

  /** `StartIndex` finds the first element with the start of `x`. */
  lemma {:induction false} StartIndexSpec(s: seq<Interval>, x: Interval)
    ensures StartIndex(s, x) < |s| ==> s[StartIndex(s, x)].start == x.start
    ensures forall i :: 0 <= i < StartIndex(s, x) ==> s[i].start != x.start
  {
    if |s| > 0 && s[0].start != x.start {
      StartIndexSpec(s[1..], x);
      forall i | 0 < i < StartIndex(s, x)
        ensures s[i].start != x.start
      {
        assert s[i] == s[1..][i - 1];
      }
    }
  }

  /** In a separated sequence, `HasStart` is membership of the interval with that start. */
  lemma HasStartSeparated(s: seq<Interval>, x: Interval)
    requires Separated(s)
    ensures x in s ==> HasStart(s, x) && s[StartIndex(s, x)] == x
    ensures (forall i :: 0 <= i < |s| ==> !Meet(s[i], x)) ==> !HasStart(s, x)
  {
    StartIndexSpec(s, x);
    if x in s {
      var j :| 0 <= j < |s| && s[j] == x;
      var k := StartIndex(s, x);
      assert k <= j && s[k].start == s[j].start;
      assert k == j;
    }
  }

  /** `add(x)`: inserts `x` in start order, unless an element with its start is present. */
  function Insert(s: seq<Interval>, x: Interval): seq<Interval>
  {
    if |s| == 0 then [x]
    else if s[0].start == x.start then s
    else if x.start.x < s[0].start.x then [x] + s
    else [s[0]] + Insert(s[1..], x)
  }

  /** How many leading elements start before `x`. */
  function InsertPosition(s: seq<Interval>, x: Interval): (k: nat)
    ensures k <= |s|
  {
    if |s| == 0 || x.start.x <= s[0].start.x then 0 else 1 + InsertPosition(s[1..], x)
  }

  /** In start order, the elements before the insert position start before `x`, the others not. */
  lemma {:induction false} InsertPositionSpec(s: seq<Interval>, x: Interval)
    requires SortedByStart(s)
    ensures forall i :: 0 <= i < InsertPosition(s, x) ==> s[i].start.x < x.start.x
    ensures forall i :: InsertPosition(s, x) <= i < |s| ==> x.start.x <= s[i].start.x
  {
    if |s| > 0 && x.start.x > s[0].start.x {
      InsertPositionSpec(s[1..], x);
      forall i | 0 < i < |s|
        ensures s[i] == s[1..][i - 1]
      {
      }
    }
  }

  /** `add` leaves the set unchanged when an element with the same start is present. */
  lemma {:induction false} InsertPresent(s: seq<Interval>, x: Interval)
    requires SortedByStart(s) && HasStart(s, x)
    ensures Insert(s, x) == s
  {
    StartIndexSpec(s, x);
    if s[0].start != x.start {
      var k := StartIndex(s, x);
      assert s[0].start.x < s[k].start.x;
      StartIndexSpec(s[1..], x);
      InsertPresent(s[1..], x);
      assert s == [s[0]] + s[1..];
    }
  }

  /** Otherwise `add` places `x` between the elements starting before it and those after it. */
  lemma {:induction false} InsertAbsent(s: seq<Interval>, x: Interval)
    requires !HasStart(s, x)
    ensures Insert(s, x) == s[..InsertPosition(s, x)] + [x] + s[InsertPosition(s, x)..]
  {
    if |s| > 0 && x.start.x > s[0].start.x {
      var t := s[1..];
      InsertAbsent(t, x);
      var k := InsertPosition(t, x);
      assert s[..k + 1] == [s[0]] + t[..k];
      assert s[k + 1..] == t[k..];
    }
  }

  /** Element `i` of `s` with `x` spliced in at position `k`. */
  lemma SpliceAt<T>(s: seq<T>, k: nat, x: T, i: nat)
    requires k <= |s| && i <= |s|
    ensures (s[..k] + [x] + s[k..])[i] == if i < k then s[i] else if i == k then x else s[i - 1]
  {
  }

  /** The members of `s` with `x` spliced in. */
  lemma SpliceMembers<T>(s: seq<T>, k: nat, x: T)
    requires k <= |s|
    ensures forall y :: y in s[..k] + [x] + s[k..] <==> y in s || y == x
  {
    assert s == s[..k] + s[k..];
  }

  /** Splicing `x` where it belongs in start order keeps the order. */
  lemma SortedSplice(s: seq<Interval>, k: nat, x: Interval)
    requires SortedByStart(s) && k <= |s|
    requires forall i :: 0 <= i < k ==> s[i].start.x < x.start.x
    requires forall i :: k <= i < |s| ==> x.start.x < s[i].start.x
    ensures SortedByStart(s[..k] + [x] + s[k..])
  {
    var r := s[..k] + [x] + s[k..];
    forall i, j | 0 <= i < j < |r|
      ensures r[i].start.x < r[j].start.x
    {
      SpliceAt(s, k, x, i);
      SpliceAt(s, k, x, j);
    }
  }

  /** Splicing in `x` between the elements ending before it and those starting after it keeps separation. */
  lemma SeparatedSplice(s: seq<Interval>, k: nat, x: Interval)
    requires Separated(s) && k <= |s|
    requires forall i :: 0 <= i < k ==> s[i].end.x < x.start.x
    requires forall i :: k <= i < |s| ==> x.end.x < s[i].start.x
    ensures Separated(s[..k] + [x] + s[k..])
  {
    var r := s[..k] + [x] + s[k..];
    forall i, j | 0 <= i < j < |r|
      ensures r[i].end.x < r[j].start.x
    {
      SpliceAt(s, k, x, i);
      SpliceAt(s, k, x, j);
    }
  }

  /** The elements after `add`: the old ones, and `x` unless its start was taken; order is kept. */
  lemma InsertMembers(s: seq<Interval>, x: Interval)
    requires SortedByStart(s)
    ensures SortedByStart(Insert(s, x))
    ensures HasStart(s, x) ==> Insert(s, x) == s
    ensures !HasStart(s, x) ==> |Insert(s, x)| == |s| + 1
    ensures !HasStart(s, x) ==> forall y :: y in Insert(s, x) <==> y in s || y == x
  {
    if HasStart(s, x) {
      InsertPresent(s, x);
    } else {
      InsertAbsent(s, x);
      InsertPositionSpec(s, x);
      StartIndexSpec(s, x);
      var k := InsertPosition(s, x);
      forall i | k <= i < |s|
        ensures x.start.x < s[i].start.x
      {
        assert s[i].start != x.start;
      }
      SortedSplice(s, k, x);
      SpliceMembers(s, k, x);
    }
  }

  /** Adding an interval that meets no element keeps the sequence separated and adds exactly it. */
  lemma InsertSeparated(s: seq<Interval>, x: Interval)
    requires Separated(s)
    requires forall i :: 0 <= i < |s| ==> !Meet(s[i], x)
    ensures !HasStart(s, x)
    ensures Separated(Insert(s, x))
    ensures forall y :: y in Insert(s, x) <==> y in s || y == x
  {
    HasStartSeparated(s, x);
    InsertAbsent(s, x);
    SeparatedIff(s);
    InsertPositionSpec(s, x);
    var k := InsertPosition(s, x);
    forall i | 0 <= i < k
      ensures s[i].end.x < x.start.x
    {
      assert !Meet(s[i], x);
    }
    forall i | k <= i < |s|
      ensures x.end.x < s[i].start.x
    {
      assert !Meet(s[i], x);
    }
    SeparatedSplice(s, k, x);
    SpliceMembers(s, k, x);
  }

  /** `remove(x)`: drops the element with the start of `x`, if any. */
  function Remove(s: seq<Interval>, x: Interval): seq<Interval>
  {
    if |s| == 0 then []
    else if s[0].start == x.start then s[1..]
    else [s[0]] + Remove(s[1..], x)
  }

  /** `remove` drops the first element with the start of `x` and keeps the rest in order. */
  lemma {:induction false} RemoveSpec(s: seq<Interval>, x: Interval)
    ensures Remove(s, x) == if HasStart(s, x) then s[..StartIndex(s, x)] + s[StartIndex(s, x) + 1..] else s
  {
    if |s| > 0 && s[0].start != x.start {
      var t := s[1..];
      RemoveSpec(t, x);
      var k := StartIndex(t, x);
      assert s[..k + 1] == [s[0]] + t[..k];
      if k < |t| {
        assert s[k + 2..] == t[k + 1..];
      } else {
        assert s == [s[0]] + t;
      }
    }
  }

  /** Element `i` of `s` without position `k`. */
  lemma DropAt<T>(s: seq<T>, k: nat, i: nat)
    requires k < |s| && i < |s| - 1
    ensures (s[..k] + s[k + 1..])[i] == if i < k then s[i] else s[i + 1]
  {
  }

  /** Dropping a position keeps separation. */
  lemma SeparatedDrop(s: seq<Interval>, k: nat)
    requires Separated(s) && k < |s|
    ensures Separated(s[..k] + s[k + 1..])
  {
    var r := s[..k] + s[k + 1..];
    forall i, j | 0 <= i < j < |r|
      ensures r[i].end.x < r[j].start.x
    {
      DropAt(s, k, i);
      DropAt(s, k, j);
    }
  }

  /** The members left after dropping position `k` of a separated sequence. */
  lemma DropMembers(s: seq<Interval>, k: nat)
    requires Separated(s) && k < |s|
    ensures forall y :: y in s[..k] + s[k + 1..] <==> y in s && y.start != s[k].start
  {
    var r := s[..k] + s[k + 1..];
    forall y
      ensures y in r <==> y in s && y.start != s[k].start
    {
      if y in s && y.start != s[k].start {
        var i :| 0 <= i < |s| && s[i] == y;
        DropAt(s, k, if i < k then i else i - 1);
      }
      if y in r {
        var i :| 0 <= i < |r| && r[i] == y;
        DropAt(s, k, i);
        var i' := if i < k then i else i + 1;
        assert s[i'].start.x != s[k].start.x by {
          if i' < k {
            assert s[i'].start.x < s[i'].end.x < s[k].start.x;
          } else {
            assert s[k].start.x < s[k].end.x < s[i'].start.x;
          }
        }
      }
    }
  }

  /**
   * Removing from a separated sequence keeps it separated and drops exactly
   * the member with the start of `x`.
   */
  lemma RemoveSeparated(s: seq<Interval>, x: Interval)
    requires Separated(s)
    ensures Separated(Remove(s, x))
    ensures forall y :: y in Remove(s, x) <==> y in s && y.start != x.start
    ensures x in s ==> |Remove(s, x)| == |s| - 1
  {
    RemoveSpec(s, x);
    StartIndexSpec(s, x);
    HasStartSeparated(s, x);
    var k := StartIndex(s, x);
    if k < |s| {
      SeparatedDrop(s, k);
      DropMembers(s, k);
    } else {
      forall y | y in s
        ensures y.start != x.start
      {
        var i :| 0 <= i < |s| && s[i] == y;
      }
    }
  }

  /** `overlaps(element)`: the first live interval, in start order, that overlaps `element`. */
  function FirstOverlap(s: seq<Interval>, element: Element1D): (r: Option<Interval>)
  {
    if |s| == 0 then None
    else if IntervalElement(s[0]).Overlaps(element) then Some(s[0])
    else FirstOverlap(s[1..], element)
  }

  /**
   * `overlaps(element)` finds an overlapping member preceded by none, and
   * `null` exactly when no member overlaps.
   */
  lemma {:induction false} FirstOverlapSpec(s: seq<Interval>, element: Element1D)
    ensures FirstOverlap(s, element).None? <==>
      forall i :: 0 <= i < |s| ==> !IntervalElement(s[i]).Overlaps(element)
    ensures FirstOverlap(s, element).Some? ==>
      exists k :: 0 <= k < |s|
        && s[k] == FirstOverlap(s, element).value
        && IntervalElement(s[k]).Overlaps(element)
        && forall i :: 0 <= i < k ==> !IntervalElement(s[i]).Overlaps(element)
  {
    if |s| > 0 && !IntervalElement(s[0]).Overlaps(element) {
      var t := s[1..];
      FirstOverlapSpec(t, element);
      if FirstOverlap(t, element).Some? {
        var k :| 0 <= k < |t| && t[k] == FirstOverlap(t, element).value
          && IntervalElement(t[k]).Overlaps(element)
          && forall i :: 0 <= i < k ==> !IntervalElement(t[i]).Overlaps(element);
        assert s[k + 1] == t[k];
        forall i | 0 <= i < k + 1
          ensures !IntervalElement(s[i]).Overlaps(element)
        {
          if i > 0 {
            assert s[i] == t[i - 1];
          }
        }
      } else {
        forall i | 0 <= i < |s|
          ensures !IntervalElement(s[i]).Overlaps(element)
        {
          if i > 0 {
            assert s[i] == t[i - 1];
          }
        }
      }
    }
  }
}
