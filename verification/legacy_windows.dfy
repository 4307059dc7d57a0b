/**
 * `Util.slideWindow(coll, size, padding)` of the first version: the same
 * sliding windows as `util/Collections`, kept in a `LinkedList` that drops
 * its head once it holds `size` slots.
 */
module LegacyWindows {
  import opened Wrappers
  import opened JavaInt
  import opened Collections

  /**
   * The iterator behind `slideWindow(coll, size, padding)`: the cursor `it`
   * over `coll`, the nulls still to append after it, and the list `window`.
   */
  class LinkedWindowIterator<T> {
    const input: seq<T>
    const size: nat
    const padding: nat
    var it: nat
    var window: seq<Option<T>>
    var trailingNulls: int

    /** How many slots of the padded collection the list has taken in. */
    ghost var consumed: nat

    ghost predicate Valid()
      reads this
    {
      && padding < size
      && it <= |input|
      && size - 1 <= consumed
      && trailingNulls <= padding
      && (it < |input| ==> trailingNulls == padding)
      && (if it < |input| || trailingNulls > 0 then consumed == 2 * padding + it - trailingNulls
          else consumed >= |input| + 2 * padding)
      && window == Held(input, size, padding, consumed)
    }

    /** How many windows have been handed out so far. */
    ghost function Yielded(): int
      reads this
    {
      consumed - size + 1
    }

    /**
     * The initialiser: `padding` nulls, then up to `size - padding - 1`
     * elements, then (for a short collection) nulls up to `size - 1` slots,
     * each of which is taken off the trailing nulls.
     */
    constructor (input: seq<T>, size: nat, padding: nat)
      requires padding < size
      ensures Valid() && Yielded() == 0
      ensures this.input == input && this.size == size && this.padding == padding
    {
      var it := 0;
      var window: seq<Option<T>> := [];
      var trailingNulls: int := padding;
      var p := padding;
      while p > 0
        invariant 0 <= p <= padding && |window| == padding - p
        invariant window == Held(input, size, padding, |window|)
      {
        HeldGrow(input, size, padding, |window|);
        window := window + [None];
        p := p - 1;
      }
      var s: int := size - padding;
      if |input| >= s {
        s := s - 1;
        while s > 0
          invariant 0 <= it < size - padding && it <= |input| && s == size - padding - 1 - it
          invariant |window| == padding + it
          invariant window == Held(input, size, padding, |window|)
        {
          HeldGrow(input, size, padding, |window|);
          window := window + [Some(input[it])];
          it := it + 1;
          s := s - 1;
        }
      } else {
        s := |input|;
        while s > 0
          invariant 0 <= it <= |input| && s == |input| - it
          invariant |window| == padding + it
          invariant window == Held(input, size, padding, |window|)
        {
          HeldGrow(input, size, padding, |window|);
          window := window + [Some(input[it])];
          it := it + 1;
          s := s - 1;
        }
        s := size - padding - |input|;
        s := s - 1;
        while s > 0
          invariant 0 <= s && |window| + s == size - 1 && |window| >= padding + |input|
          invariant trailingNulls == 2 * padding + |input| - |window|
          invariant window == Held(input, size, padding, |window|)
        {
          HeldGrow(input, size, padding, |window|);
          window := window + [None];
          trailingNulls := trailingNulls - 1;
          s := s - 1;
        }
      }
      this.input := input;
      this.size := size;
      this.padding := padding;
      this.it := it;
      this.window := window;
      this.trailingNulls := trailingNulls;
      this.consumed := |window|;
    }

    /** `hasNext()`: elements or trailing nulls are left. */
    function HasNext(): bool
      reads this
    {
      it < |input| || trailingNulls > 0
    }

    /** `hasNext()` holds exactly while windows remain to be handed out. */
    lemma HasNextSpec()
      requires Valid()
      ensures HasNext() <==> consumed < |input| + 2 * padding
      ensures HasNext() <==> 0 <= Yielded() < |SlidingWindows(input, size, padding)|
    {
      SlidingWindowsCount(input, size, padding);
    }

    /** Slots of the padded collection not yet taken in. */
    ghost function Remaining(): int
      reads this
    {
      |input| + 2 * padding - consumed
    }

    /**
     * `next()`: takes the next element or trailing null into the list,
     * dropping its head when the list is full, and hands out the list, which
     * then holds the next window of `SlidingWindows(input, size, padding)`;
     * `NoSuchElementException` when none is left (the source still counts
     * the trailing nulls down then).
     */
    method Next() returns (r: Result<seq<Option<T>>>)
      requires Valid()
      modifies this
      ensures Valid()
      ensures r.Success? <==> old(HasNext())
      ensures r.Success? ==>
        && old(Yielded()) >= 0
        && old(Yielded()) < |SlidingWindows(input, size, padding)|
        && Yielded() == old(Yielded()) + 1
        && Remaining() == old(Remaining()) - 1
        && r.value == window == SlidingWindows(input, size, padding)[old(Yielded())]
      ensures r.Failure? ==> r.error == NoSuchElement && window == old(window) && Remaining() <= 0
    {
      HasNextSpec();
      ghost var c := consumed;
      var next: Option<T>;
      if it < |input| {
        next := Some(input[it]);
        it := it + 1;
      } else if trailingNulls > 0 {
        next := None;
        trailingNulls := trailingNulls - 1;
      } else {
        trailingNulls := trailingNulls - 1;
        return Failure(NoSuchElement);
      }
      HeldIsWindow(input, size, padding, c);
      if |window| == size {
        HeldSlide(input, size, padding, c);
        window := window[1..];
      } else {
        HeldGrow(input, size, padding, c);
      }
      window := window + [next];
      consumed := c + 1;
      r := Success(window);
    }
  }
}
