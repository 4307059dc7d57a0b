/**
 * The live intervals of the first version: a `TreeSet` ordered by
 * `Interval::start`, that is by the absolute position of the start, kept as
 * the sequence of its elements in iteration order. The comparator
 * identifies two intervals whose starts are at the same position (even in
 * different row representations), so `add` and `remove` look at that only.
 */
module LegacyIntervalSet {
  import opened Wrappers
  import opened LegacyGeometry

  /** Two intervals share a coordinate (closed spans). */
  predicate Meet(i: Interval, j: Interval)
  {
    Lo(i) <= Hi(j) && Lo(j) <= Hi(i)
  }

  /** `i.overlaps(j)` for two intervals is `Meet`. */
  lemma OverlapsIsMeet(i: Interval, j: Interval)
    ensures Overlaps(IntervalElement(i), IntervalElement(j)) <==> Meet(i, j)
    ensures Meet(i, j) <==> Meet(j, i)
  {
    OverlapsSpec(IntervalElement(i), IntervalElement(j));
  }

  /** Every interval ends before the next one starts. */
  predicate Separated(s: seq<Interval>)
  {
    forall i, j :: 0 <= i < j < |s| ==> Hi(s[i]) < Lo(s[j])
  }

  /** Iteration order is strictly increasing start order. */
  predicate SortedByStart(s: seq<Interval>)
  {
    forall i, j :: 0 <= i < j < |s| ==> Lo(s[i]) < Lo(s[j])
  }

  /** No two distinct positions hold overlapping intervals. */
  predicate PairwiseDisjoint(s: seq<Interval>)
  {
    forall i, j :: 0 <= i < |s| && 0 <= j < |s| && i != j ==> !Meet(s[i], s[j])
  }

  /** Being separated is being sorted by start and pairwise non-overlapping. */
  lemma SeparatedIff(s: seq<Interval>)
    ensures Separated(s) <==> SortedByStart(s) && PairwiseDisjoint(s)
  {
    if Separated(s) {
      forall i, j | 0 <= i < j < |s|
        ensures Lo(s[i]) < Lo(s[j])
      {
        assert Lo(s[i]) < Hi(s[i]);
      }
    }
    if SortedByStart(s) && PairwiseDisjoint(s) {
      forall i, j | 0 <= i < j < |s|
        ensures Hi(s[i]) < Lo(s[j])
      {
        assert !Meet(s[i], s[j]);
      }
    }
  }

  /** The first position holding an element with the start of `x`, or `|s|` if none. */
  function StartIndex(s: seq<Interval>, x: Interval): (k: nat)
    ensures k <= |s|
  {
    if |s| == 0 || Lo(s[0]) == Lo(x) then 0 else 1 + StartIndex(s[1..], x)
  }

  /** Some element has the start of `x`: the comparator deems it equal to `x`. */
  predicate HasStart(s: seq<Interval>, x: Interval)
  {
    StartIndex(s, x) < |s|
  }

  /** `StartIndex` finds the first element with the start of `x`. */
  lemma {:induction false} StartIndexSpec(s: seq<Interval>, x: Interval)
    ensures StartIndex(s, x) < |s| ==> Lo(s[StartIndex(s, x)]) == Lo(x)
    ensures forall i :: 0 <= i < StartIndex(s, x) ==> Lo(s[i]) != Lo(x)
  {
    if |s| > 0 && Lo(s[0]) != Lo(x) {
      StartIndexSpec(s[1..], x);
      forall i | 0 < i < StartIndex(s, x)
        ensures Lo(s[i]) != Lo(x)
      {
        assert s[i] == s[1..][i - 1];
      }
    }
  }

  /** In a separated sequence, `HasStart` is membership of the interval with that start. */
  lemma HasStartSeparated(s: seq<Interval>, x: Interval)
    requires Separated(s)
    ensures x in s ==> HasStart(s, x) && s[StartIndex(s, x)] == x
    ensures (forall i :: 0 <= i < |s| ==> !Meet(s[i], x)) ==> !HasStart(s, x)
  {
    StartIndexSpec(s, x);
    if x in s {
      var j :| 0 <= j < |s| && s[j] == x;
      var k := StartIndex(s, x);
      assert k <= j;
    }
  }

  /** `add(x)`: inserts `x` in start order, unless an element with its start is present. */
  function Insert(s: seq<Interval>, x: Interval): seq<Interval>
  {
    if |s| == 0 then [x]
    else if Lo(s[0]) == Lo(x) then s
    else if Lo(x) < Lo(s[0]) then [x] + s
    else [s[0]] + Insert(s[1..], x)
  }

  /** How many leading elements start before `x`. */
  function InsertPosition(s: seq<Interval>, x: Interval): (k: nat)
    ensures k <= |s|
  {
    if |s| == 0 || Lo(x) <= Lo(s[0]) then 0 else 1 + InsertPosition(s[1..], x)
  }

  /** In start order, the elements before the insert position start before `x`, the others not. */
  lemma {:induction false} InsertPositionSpec(s: seq<Interval>, x: Interval)
    requires SortedByStart(s)
    ensures forall i :: 0 <= i < InsertPosition(s, x) ==> Lo(s[i]) < Lo(x)
    ensures forall i :: InsertPosition(s, x) <= i < |s| ==> Lo(x) <= Lo(s[i])
  {
    if |s| > 0 && Lo(x) > Lo(s[0]) {
      InsertPositionSpec(s[1..], x);
      forall i | 0 < i < |s|
        ensures s[i] == s[1..][i - 1]
      {
      }
    }
  }

  /** `add` leaves the set unchanged when an element with the same start is present. */
  lemma {:induction false} InsertPresent(s: seq<Interval>, x: Interval)
    requires SortedByStart(s) && HasStart(s, x)
    ensures Insert(s, x) == s
  {
    StartIndexSpec(s, x);
    if Lo(s[0]) != Lo(x) {
      var k := StartIndex(s, x);
      assert Lo(s[0]) < Lo(s[k]);
      StartIndexSpec(s[1..], x);
      InsertPresent(s[1..], x);
      assert s == [s[0]] + s[1..];
    }
  }

  /** Otherwise `add` places `x` between the elements starting before it and those after it. */
  lemma {:induction false} InsertAbsent(s: seq<Interval>, x: Interval)
    requires !HasStart(s, x)
    ensures Insert(s, x) == s[..InsertPosition(s, x)] + [x] + s[InsertPosition(s, x)..]
  {
    if |s| > 0 && Lo(x) > Lo(s[0]) {
      var t := s[1..];
      InsertAbsent(t, x);
      var k := InsertPosition(t, x);
      assert s[..k + 1] == [s[0]] + t[..k];
      assert s[k + 1..] == t[k..];
    }
  }

  /** Element `i` of `s` with `x` spliced in at position `k`. */
  lemma SpliceAt<T>(s: seq<T>, k: nat, x: T, i: nat)
    requires k <= |s| && i <= |s|
    ensures (s[..k] + [x] + s[k..])[i] == if i < k then s[i] else if i == k then x else s[i - 1]
  {
  }

  /** The members of `s` with `x` spliced in. */
  lemma SpliceMembers<T>(s: seq<T>, k: nat, x: T)
    requires k <= |s|
    ensures forall y :: y in s[..k] + [x] + s[k..] <==> y in s || y == x
  {
    assert s == s[..k] + s[k..];
  }

  /** Splicing `x` where it belongs in start order keeps the order. */
  lemma SortedSplice(s: seq<Interval>, k: nat, x: Interval)
    requires SortedByStart(s) && k <= |s|
    requires forall i :: 0 <= i < k ==> Lo(s[i]) < Lo(x)
    requires forall i :: k <= i < |s| ==> Lo(x) < Lo(s[i])
    ensures SortedByStart(s[..k] + [x] + s[k..])
  {
    var r := s[..k] + [x] + s[k..];
    forall i, j | 0 <= i < j < |r|
      ensures Lo(r[i]) < Lo(r[j])
    {
      SpliceAt(s, k, x, i);
      SpliceAt(s, k, x, j);
    }
  }

  /** Splicing in `x` between the elements ending before it and those starting after it keeps separation. */
  lemma SeparatedSplice(s: seq<Interval>, k: nat, x: Interval)
    requires Separated(s) && k <= |s|
    requires forall i :: 0 <= i < k ==> Hi(s[i]) < Lo(x)
    requires forall i :: k <= i < |s| ==> Hi(x) < Lo(s[i])
    ensures Separated(s[..k] + [x] + s[k..])
  {
    var r := s[..k] + [x] + s[k..];
    forall i, j | 0 <= i < j < |r|
      ensures Hi(r[i]) < Lo(r[j])
    {
      SpliceAt(s, k, x, i);
      SpliceAt(s, k, x, j);
    }
  }

  /** The elements after `add`: the old ones, and `x` unless its start was taken; order is kept. */
  lemma InsertMembers(s: seq<Interval>, x: Interval)
    requires SortedByStart(s)
    ensures SortedByStart(Insert(s, x))
    ensures HasStart(s, x) ==> Insert(s, x) == s
    ensures !HasStart(s, x) ==> |Insert(s, x)| == |s| + 1
    ensures !HasStart(s, x) ==> forall y :: y in Insert(s, x) <==> y in s || y == x
  {
    if HasStart(s, x) {
      InsertPresent(s, x);
    } else {
      InsertAbsent(s, x);
      InsertPositionSpec(s, x);
      StartIndexSpec(s, x);
      var k := InsertPosition(s, x);
      forall i | k <= i < |s|
        ensures Lo(x) < Lo(s[i])
      {
        assert Lo(s[i]) != Lo(x);
      }
      SortedSplice(s, k, x);
      SpliceMembers(s, k, x);
    }
  }

  /** Adding an interval that meets no element keeps the sequence separated and adds exactly it. */
  lemma InsertSeparated(s: seq<Interval>, x: Interval)
    requires Separated(s)
    requires forall i :: 0 <= i < |s| ==> !Meet(s[i], x)
    ensures !HasStart(s, x)
    ensures Separated(Insert(s, x))
    ensures forall y :: y in Insert(s, x) <==> y in s || y == x
  {
    HasStartSeparated(s, x);
    InsertAbsent(s, x);
    SeparatedIff(s);
    InsertPositionSpec(s, x);
    var k := InsertPosition(s, x);
    forall i | 0 <= i < k
      ensures Hi(s[i]) < Lo(x)
    {
      assert !Meet(s[i], x);
    }
    forall i | k <= i < |s|
      ensures Hi(x) < Lo(s[i])
    {
      assert !Meet(s[i], x);
    }
    SeparatedSplice(s, k, x);
    SpliceMembers(s, k, x);
  }

  /** `remove(x)`: drops the element with the start of `x`, if any. */
  function Remove(s: seq<Interval>, x: Interval): seq<Interval>
  {
    if |s| == 0 then []
    else if Lo(s[0]) == Lo(x) then s[1..]
    else [s[0]] + Remove(s[1..], x)
  }

  /** `remove` drops the first element with the start of `x` and keeps the rest in order. */
  lemma {:induction false} RemoveSpec(s: seq<Interval>, x: Interval)
    ensures Remove(s, x) == if HasStart(s, x) then s[..StartIndex(s, x)] + s[StartIndex(s, x) + 1..] else s
  {
    if |s| > 0 && Lo(s[0]) != Lo(x) {
      var t := s[1..];
      RemoveSpec(t, x);
      var k := StartIndex(t, x);
      assert s[..k + 1] == [s[0]] + t[..k];
      if k < |t| {
        assert s[k + 2..] == t[k + 1..];
      } else {
        assert s == [s[0]] + t;
      }
    }
  }

  /** Element `i` of `s` without position `k`. */
  lemma DropAt<T>(s: seq<T>, k: nat, i: nat)
    requires k < |s| && i < |s| - 1
    ensures (s[..k] + s[k + 1..])[i] == if i < k then s[i] else s[i + 1]
  {
  }

  /** Dropping a position keeps separation. */
  lemma SeparatedDrop(s: seq<Interval>, k: nat)
    requires Separated(s) && k < |s|
    ensures Separated(s[..k] + s[k + 1..])
  {
    var r := s[..k] + s[k + 1..];
    forall i, j | 0 <= i < j < |r|
      ensures Hi(r[i]) < Lo(r[j])
    {
      DropAt(s, k, i);
      DropAt(s, k, j);
    }
  }

  /** The members left after dropping position `k` of a separated sequence. */
  lemma DropMembers(s: seq<Interval>, k: nat)
    requires Separated(s) && k < |s|
    ensures forall y :: y in s[..k] + s[k + 1..] <==> y in s && Lo(y) != Lo(s[k])
  {
    var r := s[..k] + s[k + 1..];
    forall y
      ensures y in r <==> y in s && Lo(y) != Lo(s[k])
    {
      if y in s && Lo(y) != Lo(s[k]) {
        var i :| 0 <= i < |s| && s[i] == y;
        DropAt(s, k, if i < k then i else i - 1);
      }
      if y in r {
        var i :| 0 <= i < |r| && r[i] == y;
        DropAt(s, k, i);
        var i' := if i < k then i else i + 1;
        assert Lo(s[i']) != Lo(s[k]) by {
          if i' < k {
            assert Lo(s[i']) < Hi(s[i']) < Lo(s[k]);
          } else {
            assert Lo(s[k]) < Hi(s[k]) < Lo(s[i']);
          }
        }
      }
    }
  }

  /**
   * Removing from a separated sequence keeps it separated and drops exactly
   * the member with the start of `x`.
   */
  lemma RemoveSeparated(s: seq<Interval>, x: Interval)
    requires Separated(s)
    ensures Separated(Remove(s, x))
    ensures forall y :: y in Remove(s, x) <==> y in s && Lo(y) != Lo(x)
    ensures x in s ==> |Remove(s, x)| == |s| - 1
  {
    RemoveSpec(s, x);
    StartIndexSpec(s, x);
    HasStartSeparated(s, x);
    var k := StartIndex(s, x);
    if k < |s| {
      SeparatedDrop(s, k);
      DropMembers(s, k);
    } else {
      forall y | y in s
        ensures Lo(y) != Lo(x)
      {
        var i :| 0 <= i < |s| && s[i] == y;
      }
    }
  }

  /** `overlaps(element)`: the first live interval, in start order, that overlaps `element`. */
  function FirstOverlap(s: seq<Interval>, element: Element): (r: Option<Interval>)
  {
    if |s| == 0 then None
    else if Overlaps(IntervalElement(s[0]), element) then Some(s[0])
    else FirstOverlap(s[1..], element)
  }

  /**
   * `overlaps(element)` finds an overlapping member preceded by none, and
   * `null` exactly when no member overlaps.
   */
  lemma {:induction false} FirstOverlapSpec(s: seq<Interval>, element: Element)
    ensures FirstOverlap(s, element).None? <==>
      forall i :: 0 <= i < |s| ==> !Overlaps(IntervalElement(s[i]), element)
    ensures FirstOverlap(s, element).Some? ==>
      exists k :: 0 <= k < |s|
        && s[k] == FirstOverlap(s, element).value
        && Overlaps(IntervalElement(s[k]), element)
        && forall i :: 0 <= i < k ==> !Overlaps(IntervalElement(s[i]), element)
  {
    if |s| > 0 && !Overlaps(IntervalElement(s[0]), element) {
      var t := s[1..];
      FirstOverlapSpec(t, element);
      if FirstOverlap(t, element).Some? {
        var k :| 0 <= k < |t| && t[k] == FirstOverlap(t, element).value
          && Overlaps(IntervalElement(t[k]), element)
          && forall i :: 0 <= i < k ==> !Overlaps(IntervalElement(t[i]), element);
        assert s[k + 1] == t[k];
        forall i | 0 <= i < k + 1
          ensures !Overlaps(IntervalElement(s[i]), element)
        {
          if i > 0 {
            assert s[i] == t[i - 1];
          }
        }
      } else {
        forall i | 0 <= i < |s|
          ensures !Overlaps(IntervalElement(s[i]), element)
        {
          if i > 0 {
            assert s[i] == t[i - 1];
          }
        }
      }
    }
  }
}
