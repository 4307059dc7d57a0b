/**
 * `util/Collections`: a fixed-capacity ring buffer (`_Window`) and the
 * iterator `slideWindow`, which yields the consecutive `size`-long windows of
 * a collection padded with `padding` nulls on both sides.
 */
module Collections {
  import opened Wrappers
  import opened JavaInt

  // ---------------------------------------------------------------------
  // Specification of the windows

  /** The `i`-th slot of the collection `xs`, or null outside it. */
  function SlotAt<A>(xs: seq<A>, i: int): Option<A>
  {
    if 0 <= i < |xs| then Some(xs[i]) else None
  }

  /** The collection with `padding` nulls prepended and appended. */
  function Padded<A>(xs: seq<A>, padding: nat): (r: seq<Option<A>>)
    ensures |r| == |xs| + 2 * padding
  {
    seq(|xs| + 2 * padding, k => SlotAt(xs, k - padding))
  }

  /** Slot `k` of the padded collection is slot `k - padding` of `xs`. */
  lemma PaddedAt<A>(xs: seq<A>, padding: nat, k: nat)
    requires k < |xs| + 2 * padding
    ensures Padded(xs, padding)[k] == SlotAt(xs, k - padding)
  {
  }

  /** The windows of `size` consecutive slots of `xs`, from left to right. */
  function Windows<A>(xs: seq<A>, size: nat): seq<seq<A>>
    requires size >= 1
  {
    if |xs| < size then [] else [xs[..size]] + Windows(xs[1..], size)
  }

  /** There are `max(0, |xs| - size + 1)` windows. */
  lemma {:induction false} WindowsCount<A>(xs: seq<A>, size: nat)
    requires size >= 1
    ensures |Windows(xs, size)| == Max(0, |xs| - size + 1)
  {
    if |xs| >= size {
      WindowsCount(xs[1..], size);
    }
  }

  /** The `k`-th window is `xs[k..k+size]`. */
  lemma {:induction false} WindowAt<A>(xs: seq<A>, size: nat, k: nat)
    requires size >= 1 && k + size <= |xs|
    ensures k < |Windows(xs, size)| && Windows(xs, size)[k] == xs[k..k + size]
  {
    if k > 0 {
      WindowAt(xs[1..], size, k - 1);
      assert xs[1..][k - 1..k - 1 + size] == xs[k..k + size];
    }
  }

  /** The windows `slideWindow(xs, size, padding)` yields, when `padding < size`. */
  function SlidingWindows<A>(xs: seq<A>, size: nat, padding: nat): seq<seq<Option<A>>>
    requires padding < size
  {
    Windows(Padded(xs, padding), size)
  }

  /** There are `max(0, |xs| + 2 * padding - size + 1)` windows. */
  lemma SlidingWindowsCount<A>(xs: seq<A>, size: nat, padding: nat)
    requires padding < size
    ensures |SlidingWindows(xs, size, padding)| == Max(0, |xs| + 2 * padding - size + 1)
  {
    WindowsCount(Padded(xs, padding), size);
  }

  /** The `j`-th slot of window `k` is the slot `k + j - padding` of `xs` (null outside `xs`). */
  lemma SlidingWindowAt<A>(xs: seq<A>, size: nat, padding: nat, k: nat)
    requires padding < size && k < |SlidingWindows(xs, size, padding)|
    ensures |SlidingWindows(xs, size, padding)[k]| == size
    ensures forall j :: 0 <= j < size ==> SlidingWindows(xs, size, padding)[k][j] == SlotAt(xs, k + j - padding)
  {
    SlidingWindowsCount(xs, size, padding);
    WindowAt(Padded(xs, padding), size, k);
  }

  // ---------------------------------------------------------------------
  // The ring buffer

  /**
   * `_Window`: a ring buffer over the array `window`; the logical contents
   * are the `size()` slots from `start` on, wrapping around.
   */
  class Window<A> {
    const window: array<Option<A>>
    var spotsLeft: nat
    var start: nat

    /** The slots from the oldest to the newest. */
    ghost var Contents: seq<Option<A>>

    ghost predicate Valid()
      reads this, window
    {
      && spotsLeft <= window.Length
      && (if window.Length == 0 then start == 0 else start < window.Length)
      && |Contents| == window.Length - spotsLeft
      && forall i :: 0 <= i < |Contents| ==> Contents[i] == window[Wrap(start + i, window.Length)]
    }

    /** An index of the array, reduced once by the capacity. */
    static function Wrap(k: nat, n: nat): nat
    {
      if k < n then k else k - n
    }

    /** Below twice the capacity, `%` reduces once. */
    static lemma WrapIsMod(k: nat, n: nat)
      requires k < 2 * n
      ensures k % n == Wrap(k, n)
    {
      if k >= n {
        assert k - n < n;
      }
    }

    /** Distinct slots of the buffer sit at distinct indices of the array. */
    static lemma WrapDistinct(start: nat, i: nat, j: nat, n: nat)
      requires start < n && i < j < n
      ensures Wrap(start + i, n) != Wrap(start + j, n)
    {
    }

    constructor (size: nat)
      ensures Valid() && fresh(window)
      ensures window.Length == size && Contents == []
    {
      window := new Option<A>[size](_ => None);
      spotsLeft := size;
      start := 0;
      Contents := [];
    }

    function Size(): (r: int)
      reads this, window
      requires Valid()
      ensures r == |Contents| && 0 <= r <= window.Length
    {
      window.Length - spotsLeft
    }

    function Full(): bool
      reads this, window
      requires Valid()
    {
      spotsLeft == 0
    }

    /** The `i`-th oldest slot; `NoSuchElementException` outside `[0, size())`. */
    method Get(i: int) returns (r: Result<Option<A>>)
      requires Valid()
      ensures r.Success? <==> 0 <= i < |Contents|
      ensures r.Success? ==> r.value == Contents[i]
    {
      if i < 0 || i >= Size() {
        return Failure(NoSuchElement);
      }
      WrapIsMod(start + i, window.Length);
      var k := (start + i) % window.Length;
      r := Success(window[k]);
    }

    /** Appends `next` at the logical end; a `RuntimeException` (here: `ok == false`) when full. */
    method Add(next: Option<A>) returns (ok: bool)
      requires Valid()
      modifies this, window
      ensures Valid()
      ensures ok <==> old(|Contents|) < window.Length
      ensures Contents == if ok then old(Contents) + [next] else old(Contents)
    {
      if Full() {
        return false;
      }
      ghost var before := Contents;
      var n := window.Length;
      WrapIsMod(start + (n - spotsLeft), n);
      var k := (start + (n - spotsLeft)) % n;
      window[k] := next;
      spotsLeft := spotsLeft - 1;
      Contents := before + [next];
      forall i | 0 <= i < |Contents|
        ensures Contents[i] == window[Wrap(start + i, n)]
      {
        if i < |before| {
          WrapDistinct(start, i, |before|, n);
        }
      }
      ok := true;
    }

    /**
     * Replaces the oldest slot by `next` and returns it. The iterator calls it
     * only on a full window (the source never checks this itself).
     */
    method Slide(next: Option<A>) returns (removed: Option<A>)
      requires Valid() && spotsLeft == 0 && window.Length > 0
      modifies this, window
      ensures Valid()
      ensures removed == old(Contents)[0]
      ensures Contents == old(Contents)[1..] + [next]
    {
      ghost var before := Contents;
      var n := window.Length;
      var s := start;
      assert Wrap(s + 0, n) == s;
      removed := window[s];
      window[s] := next;
      WrapIsMod(s + 1, n);
      start := (s + 1) % n;
      Contents := Contents[1..] + [next];
      forall i | 0 <= i < |Contents|
        ensures Contents[i] == window[Wrap(start + i, n)]
      {
        if i < n - 1 {
          assert Wrap(start + i, n) == Wrap(s + (i + 1), n) != s;
        } else {
          assert Wrap(start + i, n) == s;
        }
      }
    }
  }

  // ---------------------------------------------------------------------
  // The iterator

  /**
   * The iterator that `slideWindow(xs, size, padding)` returns: it walks `xs`
   * with the cursor `it`, then hands out `trailingNulls` nulls, and yields the
   * same `Window` object after every step.
   */
  class SlidingWindowIterator<A> {
    const input: seq<A>
    const size: nat
    const padding: nat
    const window: Window<A>
    var it: nat
    var trailingNulls: int

    /** How many slots of `Padded(input, padding)` the window has taken in. */
    ghost var consumed: nat
    ghost const Repr: set<object>

    ghost predicate Valid()
      reads this, Repr
    {
      && Repr == {this, window, window.window}
      && window.Valid()
      && window.window.Length == size
      && Counters(|input|, size, padding, consumed, it, trailingNulls)
      && window.Contents == Held(input, size, padding, consumed)
    }

    /** How many windows have been handed out so far. */
    ghost function Yielded(): nat
      reads this
      requires padding < size
    {
      if consumed >= size then consumed - size + 1 else 0
    }

    /** Starts on a fresh window holding the first `size - 1` slots of the padded input, as the source's initialiser does. */
    constructor (input: seq<A>, size: nat, padding: nat)
      requires padding < size
      ensures Valid() && fresh(Repr)
      ensures this.input == input && this.size == size && this.padding == padding
      ensures Yielded() == 0
    {
      var w := new Window<A>(size);
      var it, trailingNulls := FillWindow(w, input, size, padding);
      this.input := input;
      this.size := size;
      this.padding := padding;
      this.window := w;
      this.it := it;
      this.trailingNulls := trailingNulls;
      this.consumed := |w.Contents|;
      this.Repr := {this, w, w.window};
    }

    /**
     * The loops of the initialiser: the leading nulls, then the input, then
     * the trailing nulls, each while the window lacks one of its first
     * `size - 1` slots; `it` and `trailingNulls` end as the counters of what
     * was taken in.
     */
    static method FillWindow(w: Window<A>, input: seq<A>, size: nat, padding: nat) returns (it: nat, trailingNulls: nat)
      requires w.Valid() && w.window.Length == size && w.Contents == [] && padding < size
      modifies w, w.window
      ensures w.Valid()
      ensures Counters(|input|, size, padding, |w.Contents|, it, trailingNulls)
      ensures |w.Contents| < size && w.Contents == Held(input, size, padding, |w.Contents|)
    {
      it := 0;
      trailingNulls := padding;
      var filled := 0;
      while filled < padding
        invariant w.Valid() && w.window.Length == size
        invariant 0 <= filled <= padding
        invariant w.Contents == Held(input, size, padding, filled)
      {
        HeldGrow(input, size, padding, filled);
        var ok := w.Add(None);
        filled := filled + 1;
      }
      while it < |input|
        invariant w.Valid() && w.window.Length == size
        invariant 0 <= it <= |input| && filled == |w.Contents| == padding + it < size
        invariant w.Contents == Held(input, size, padding, filled)
      {
        filled := filled + 1;
        if !(filled < size) {
          break;
        }
        HeldGrow(input, size, padding, padding + it);
        var ok := w.Add(Some(input[it]));
        it := it + 1;
      }
      while trailingNulls > 0
        invariant w.Valid() && w.window.Length == size
        invariant padding <= |w.Contents| <= size - 1
        invariant |w.Contents| <= |input| + 2 * padding
        invariant w.Contents == Held(input, size, padding, |w.Contents|)
        invariant it == Min(|w.Contents| - padding, |input|)
        invariant trailingNulls == padding - Max(0, |w.Contents| - padding - |input|)
        invariant 0 <= trailingNulls <= padding
        invariant filled >= size ==> |w.Contents| == size - 1
        invariant filled < size ==> filled == |w.Contents| && it == |input|
      {
        filled := filled + 1;
        if !(filled < size) {
          break;
        }
        HeldGrow(input, size, padding, |w.Contents|);
        var ok := w.Add(None);
        trailingNulls := trailingNulls - 1;
      }
    }

    function HasNext(): bool
      reads this
    {
      it < |input| || trailingNulls > 0
    }

    /** Slots of the padded collection not yet taken in. */
    ghost function Remaining(): nat
      reads this, Repr
      requires Valid()
    {
      |input| + 2 * padding - consumed
    }

    /** `hasNext()` holds exactly while windows remain to be handed out. */
    lemma HasNextSpec()
      requires Valid()
      ensures HasNext() <==> Remaining() > 0
      ensures HasNext() <==> Yielded() < |SlidingWindows(input, size, padding)|
    {
      SlidingWindowsCount(input, size, padding);
    }

    /**
     * The second half of `next()`: slot `consumed` enters the window, sliding
     * it when full and extending it otherwise.
     */
    method TakeIn(next: Option<A>)
      requires window.Valid() && window.window.Length == size && padding < size
      requires size - 1 <= consumed < |input| + 2 * padding
      requires window.Contents == Held(input, size, padding, consumed)
      requires next == SlotAt(input, consumed - padding)
      modifies window, window.window
      ensures window.Valid()
      ensures window.Contents == Held(input, size, padding, consumed + 1)
    {
      if window.Full() {
        HeldSlide(input, size, padding, consumed);
        var removed := window.Slide(next);
      } else {
        HeldGrow(input, size, padding, consumed);
        var ok := window.Add(next);
      }
    }

    /**
     * `next()`: takes the next slot into the window (sliding once the window
     * is full) and returns the window, which then holds the next window of
     * `SlidingWindows(input, size, padding)`; `NoSuchElementException` when
     * none is left, after the trailing nulls are counted down once more.
     */
    method Next() returns (r: Result<Window<A>>)
      requires Valid()
      modifies Repr
      ensures Valid()
      ensures r.Success? <==> old(HasNext())
      ensures r.Success? ==>
        && r.value == window
        && old(Yielded()) < |SlidingWindows(input, size, padding)|
        && Yielded() == old(Yielded()) + 1
        && window.Contents == SlidingWindows(input, size, padding)[old(Yielded())]
        && Remaining() == old(Remaining()) - 1
      ensures r.Failure? ==>
        && r.error == NoSuchElement && Remaining() == 0
        && unchanged(window) && window.Contents == old(window.Contents)
        && consumed == old(consumed) && it == old(it) && trailingNulls == old(trailingNulls) - 1
    {
      ghost var c := consumed;
      CountersStep(|input|, size, padding, c, it, trailingNulls);
      var next: Option<A>;
      if it < |input| {
        next := Some(input[it]);
        it := it + 1;
      } else if trailingNulls > 0 {
        next := None;
        trailingNulls := trailingNulls - 1;
      } else {
        trailingNulls := trailingNulls - 1;
        assert Counters(|input|, size, padding, consumed, it, trailingNulls);
        return Failure(NoSuchElement);
      }
      TakeIn(next);
      consumed := c + 1;
      HeldIsWindow(input, size, padding, c);
      r := Success(window);
    }
  }

  /**
   * The counters of an iterator over `n` elements that has taken in
   * `consumed` slots: the cursor `it` walks the elements after the leading
   * nulls, `trailingNulls` counts the trailing nulls still to come (and
   * drops below zero as exhausted calls count it down further), and the
   * initial fill takes in `size - 1` slots unless the padded collection is
   * shorter.
   */
  predicate Counters(n: nat, size: nat, padding: nat, consumed: nat, it: nat, trailingNulls: int)
  {
    && padding < size
    && padding <= consumed <= n + 2 * padding
    && it == Min(consumed - padding, n)
    && (if consumed < n + 2 * padding then trailingNulls == padding - Max(0, consumed - padding - n) else trailingNulls <= 0)
    && (consumed >= size - 1 || consumed == n + 2 * padding)
  }

  /** The slots the window holds after `consumed` slots: the last `size` of them. */
  function Held<A>(xs: seq<A>, size: nat, padding: nat, consumed: nat): (r: seq<Option<A>>)
    ensures |r| == Min(consumed, size)
  {
    var n := Min(consumed, size);
    seq(n, j => SlotAt(xs, consumed - n + j - padding))
  }

  /**
   * One step of the counters: a slot remains exactly when the cursor or the
   * trailing nulls have one, the cursor's element is the slot `consumed -
   * padding`, a trailing null lies past the elements, and either way the
   * counters of `consumed + 1` slots result; once none remains, counting
   * the trailing nulls down keeps the counters of `consumed` slots.
   */
  lemma CountersStep(n: nat, size: nat, padding: nat, c: nat, it: nat, trailingNulls: int)
    requires Counters(n, size, padding, c, it, trailingNulls)
    ensures (it < n || trailingNulls > 0) <==> c < n + 2 * padding
    ensures it < n ==> it == c - padding && Counters(n, size, padding, c + 1, it + 1, trailingNulls)
    ensures it >= n && trailingNulls > 0 ==> c - padding >= n && Counters(n, size, padding, c + 1, it, trailingNulls - 1)
    ensures it >= n && trailingNulls <= 0 ==> Counters(n, size, padding, c, it, trailingNulls - 1)
    ensures c < n + 2 * padding ==> c + 1 >= size
  {
  }

  /** Before the window is full, taking in slot `c` appends it. */
  lemma HeldGrow<A>(xs: seq<A>, size: nat, padding: nat, c: nat)
    requires c < size
    ensures Held(xs, size, padding, c + 1) == Held(xs, size, padding, c) + [SlotAt(xs, c - padding)]
  {
    assert Held(xs, size, padding, c + 1) == Held(xs, size, padding, c) + [SlotAt(xs, c - padding)];
  }

  /** Once the window is full, taking in slot `c` drops the oldest slot and appends slot `c`. */
  lemma HeldSlide<A>(xs: seq<A>, size: nat, padding: nat, c: nat)
    requires 1 <= size <= c
    ensures Held(xs, size, padding, c + 1) == Held(xs, size, padding, c)[1..] + [SlotAt(xs, c - padding)]
  {
    assert Held(xs, size, padding, c + 1) == Held(xs, size, padding, c)[1..] + [SlotAt(xs, c - padding)];
  }

  /** The last `size` slots up to slot `c` form window `c + 1 - size`. */
  lemma HeldIsWindow<A>(xs: seq<A>, size: nat, padding: nat, c: nat)
    requires padding < size && size - 1 <= c < |xs| + 2 * padding
    ensures c + 1 - size < |SlidingWindows(xs, size, padding)|
    ensures Held(xs, size, padding, c + 1) == SlidingWindows(xs, size, padding)[c + 1 - size]
  {
    SlidingWindowsCount(xs, size, padding);
    SlidingWindowAt(xs, size, padding, c + 1 - size);
  }

  /**
   * `slideWindow(xs, size, padding)`: `IllegalArgumentException` when
   * `padding >= size`, otherwise a fresh iterator over the windows.
   */
  method SlideWindow<A>(xs: seq<A>, size: nat, padding: nat) returns (r: Result<SlidingWindowIterator<A>>)
    ensures r.Failure? <==> padding >= size
    ensures r.Success? ==>
      && r.value.Valid() && fresh(r.value.Repr)
      && r.value.input == xs && r.value.size == size && r.value.padding == padding
      && r.value.Yielded() == 0
  {
    if padding >= size {
      return Failure(IllegalArgument);
    }
    var windows := new SlidingWindowIterator(xs, size, padding);
    r := Success(windows);
  }
}
