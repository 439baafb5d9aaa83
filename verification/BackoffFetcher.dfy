/** The polling fetcher of refresh/fetcher.go. Durations are nanoseconds in 64 bits. A fetch gives
    Some value, or None for an error. */
module BackoffFetcher {
  import opened Basics

  const DEFAULT_MIN_INTERVAL: int := 4_000_000_000
  const DEFAULT_MAX_INTERVAL: int := 1_024_000_000_000
  const TWO_62: int := 0x4000_0000_0000_0000
  const TWO_63: int := 0x8000_0000_0000_0000

  /** Doubling a 64-bit integer, with wrap-around. */
  function Doubled(v: int): int {
    if v >= TWO_62 then 2 * v - 2 * TWO_63 else if v < -TWO_62 then 2 * v + 2 * TWO_63 else 2 * v
  }

  /** That is 2 * v modulo 2^64, as a signed number. */
  lemma DoubledWraps(v: int)
    requires -TWO_63 <= v < TWO_63
    ensures -TWO_63 <= Doubled(v) < TWO_63 && exists c: int :: Doubled(v) == 2 * v + c * 0x1_0000_0000_0000_0000
  {
    var c := if v >= TWO_62 then -1 else if v < -TWO_62 then 1 else 0;
    assert Doubled(v) == 2 * v + c * 0x1_0000_0000_0000_0000;
  }

  // ---------- what the interval and the consumer should be ----------

  /** min * 2^k, but no more than max. */
  function Backoff(min: nat, max: nat, k: nat): int { Min(max, min * Pow2(k)) }

  function Successes<T>(fetches: seq<Option<T>>): seq<T> {
    if fetches == [] then [] else
    var front, last := Successes(fetches[..|fetches| - 1]), fetches[|fetches| - 1];
    if last.Some? then front + [last.value] else front
  }

  /** The last value that differed from its predecessor, the initial one if none did. */
  function LastKept<T>(eq: (T, T) -> bool, init: T, xs: seq<T>): T {
    if xs == [] then init else
    var kept := LastKept(eq, init, xs[..|xs| - 1]);
    if eq(xs[|xs| - 1], kept) then kept else xs[|xs| - 1]
  }

  /** The values with repeats removed. */
  function Changes<T>(eq: (T, T) -> bool, init: T, xs: seq<T>): seq<T> {
    if xs == [] then [] else
    var front, x := xs[..|xs| - 1], xs[|xs| - 1];
    Changes(eq, init, front) + if eq(x, LastKept(eq, init, front)) then [] else [x]
  }

  /** How many values since the last change repeated it. */
  function Unchanged<T>(eq: (T, T) -> bool, init: T, xs: seq<T>): nat {
    if xs == [] then 0 else
    var front, x := xs[..|xs| - 1], xs[|xs| - 1];
    if eq(x, LastKept(eq, init, front)) then Unchanged(eq, init, front) + 1 else 0
  }

  // ---------- the interval as it is computed ----------

  /** The interval after k unchanged fetches in a row. */
  function Interval(min: int, max: int, k: nat): int {
    if k == 0 then min else Min(Doubled(Interval(min, max, k - 1)), max)
  }

  lemma {:induction false} IntervalIsBackoff(min: nat, max: nat, k: nat)
    requires 0 < min <= max < TWO_62
    ensures Interval(min, max, k) == Backoff(min, max, k)
  {
    hide Pow2;
    TimesPow2(min, k);
    if k > 0 { IntervalIsBackoff(min, max, k - 1); }
  }

  lemma TimesPow2(min: nat, k: nat)
    ensures if k == 0 then min * Pow2(k) == min else min * Pow2(k) == 2 * (min * Pow2(k - 1))
  {}

  lemma {:induction false} Pow2Exceeds(k: nat)
    ensures Pow2(k) > k
  {
    if k > 0 { Pow2Exceeds(k - 1); }
  }

  /** For positive bounds, the interval is the back-off after every number of unchanged fetches exactly
      when the upper bound stays below 2^62: from there on, doubling it overflows. */
  lemma BackoffIffNoOverflow(min: nat, max: nat)
    requires 0 < min <= max < TWO_63
    ensures (forall k: nat :: Interval(min, max, k) == Backoff(min, max, k)) <==> max < TWO_62
  {
    if max < TWO_62 {
      forall k: nat ensures Interval(min, max, k) == Backoff(min, max, k) { IntervalIsBackoff(min, max, k); }
    } else if Interval(min, max, max) == Backoff(min, max, max) {
      SaturatesAt(min, max, max);
      SaturatesAt(min, max, max + 1);
      assert Interval(min, max, max + 1) == Min(Doubled(max), max) < 0;
    }
  }

  lemma SaturatesAt(min: nat, max: nat, k: nat)
    requires 0 < min && max <= k
    ensures Backoff(min, max, k) == max
  {
    hide Pow2;
    Pow2Exceeds(k);
    MultipleAtLeast(min, Pow2(k));
  }

  lemma {:induction false} MultipleAtLeast(n: nat, p: nat)
    requires n > 0
    ensures n * p >= p
  {
    if n > 1 {
      MultipleAtLeast(n - 1, p);
      assert n * p == (n - 1) * p + p;
    }
  }

  /** What the ticker is reset to after each fetch. */
  function Resets<T>(eq: (T, T) -> bool, init: T, min: int, max: int, fetches: seq<Option<T>>): seq<int> {
    if fetches == [] then [] else
    Resets(eq, init, min, max, fetches[..|fetches| - 1]) + [Interval(min, max, Unchanged(eq, init, Successes(fetches)))]
  }

  lemma OneMoreValue<T>(eq: (T, T) -> bool, init: T, xs: seq<T>, x: T)
    ensures var same := eq(x, LastKept(eq, init, xs));
            && LastKept(eq, init, xs + [x]) == (if same then LastKept(eq, init, xs) else x)
            && Changes(eq, init, xs + [x]) == (if same then Changes(eq, init, xs) else Changes(eq, init, xs) + [x])
            && Unchanged(eq, init, xs + [x]) == if same then Unchanged(eq, init, xs) + 1 else 0
  {
    assert (xs + [x])[..|xs|] == xs;
  }

  /** No two neighbours that the consumer sees are equal, and it last saw the cached value. */
  lemma {:induction false} ConsumerSeesNoRepeats<T>(eq: (T, T) -> bool, init: T, xs: seq<T>)
    ensures var seen := [init] + Changes(eq, init, xs);
            && seen[|seen| - 1] == LastKept(eq, init, xs)
            && forall i :: 0 <= i < |seen| - 1 ==> !eq(seen[i + 1], seen[i])
  {
    if xs != [] {
      var front := xs[..|xs| - 1];
      ConsumerSeesNoRepeats(eq, init, front);
      var before, seen := [init] + Changes(eq, init, front), [init] + Changes(eq, init, xs);
      assert before <= seen;
      assert forall i :: 0 <= i < |before| ==> seen[i] == before[i];
    }
  }

  // ---------- what these mean ----------

  function Values<T>(xs: seq<T>): seq<Option<T>> { seq(|xs|, i requires 0 <= i < |xs| => Some(xs[i])) }

  /** Fetches that all succeed count with their values. */
  lemma {:induction false} SuccessesAreValues<T>(xs: seq<T>)
    ensures Successes(Values(xs)) == xs
  {
    if xs != [] {
      var front := xs[..|xs| - 1];
      assert Values(xs)[..|xs| - 1] == Values(front);
      SuccessesAreValues(front);
      assert xs == front + [xs[|xs| - 1]];
    }
  }

  /** A fetch that fails counts as if it had not been made. */
  lemma {:induction false} ErrorsAreIgnored<T>(a: seq<Option<T>>, b: seq<Option<T>>)
    ensures Successes(a + [None] + b) == Successes(a + b)
    decreases |b|
  {
    if b == [] {
      assert (a + [None] + b)[..|a|] == a && a + b == a;
    } else {
      var front := b[..|b| - 1];
      assert (a + [None] + b)[..|a| + |b|] == a + [None] + front && (a + b)[..|a| + |b| - 1] == a + front;
      ErrorsAreIgnored(a, front);
    }
  }

  /** The cache holds the latest value, or one that the latest value is equal to. It is the initial value
      or one of the values fetched. */
  lemma {:induction false} CacheIsCurrent<T>(eq: (T, T) -> bool, init: T, xs: seq<T>)
    ensures LastKept(eq, init, xs) in [init] + xs
    ensures xs != [] ==> var kept := LastKept(eq, init, xs); xs[|xs| - 1] == kept || eq(xs[|xs| - 1], kept)
  {
    if xs != [] {
      var front := xs[..|xs| - 1];
      CacheIsCurrent(eq, init, front);
      assert [init] + xs == [init] + front + [xs[|xs| - 1]];
    }
  }

  /** The count of unchanged values is that of the values after the one that is kept: all of them repeat
      it, and it is the first that differed from what was kept before, unless it is the initial one. */
  lemma {:induction false} UnchangedIsTrailing<T>(eq: (T, T) -> bool, init: T, xs: seq<T>)
    ensures var n, kept := Unchanged(eq, init, xs), LastKept(eq, init, xs);
            && n <= |xs|
            && (forall i :: |xs| - n <= i < |xs| ==> eq(xs[i], kept))
            && (if n == |xs| then kept == init
                else xs[|xs| - n - 1] == kept && !eq(kept, LastKept(eq, init, xs[..|xs| - n - 1])))
  {
    if xs != [] {
      var front := xs[..|xs| - 1];
      UnchangedIsTrailing(eq, init, front);
      var n := Unchanged(eq, init, front);
      assert forall i :: 0 <= i < |front| ==> front[i] == xs[i];
      if n < |front| { assert front[..|front| - n - 1] == xs[..|front| - n - 1]; }
    }
  }

  /** The ticker is reset after every fetch, failed ones too, to the interval of that moment. */
  lemma {:induction false} ResetAfterEveryFetch<T>(eq: (T, T) -> bool, init: T, min: int, max: int,
                                                   fetches: seq<Option<T>>, i: nat)
    ensures |Resets(eq, init, min, max, fetches)| == |fetches|
    ensures i < |fetches| ==>
              Resets(eq, init, min, max, fetches)[i] ==
              Interval(min, max, Unchanged(eq, init, Successes(fetches[..i + 1])))
  {
    if fetches != [] {
      var front := fetches[..|fetches| - 1];
      ResetAfterEveryFetch(eq, init, min, max, front, i);
      if i < |front| { assert front[..i + 1] == fetches[..i + 1]; }
      if i == |front| { assert fetches[..i + 1] == fetches; }
    }
  }

  lemma OneMoreFetch<T>(eq: (T, T) -> bool, init: T, min: int, max: int, fetches: seq<Option<T>>, r: Option<T>)
    ensures Successes(fetches + [r]) == if r.Some? then Successes(fetches) + [r.value] else Successes(fetches)
    ensures Resets(eq, init, min, max, fetches + [r]) ==
            Resets(eq, init, min, max, fetches) + [Interval(min, max, Unchanged(eq, init, Successes(fetches + [r])))]
  {
    assert (fetches + [r])[..|fetches|] == fetches;
  }

  lemma IntervalStep(min: int, max: int, k: nat)
    ensures Interval(min, max, 0) == min
    ensures Interval(min, max, k + 1) == Min(Doubled(Interval(min, max, k)), max)
  {}

  // ---------- the fetcher ----------

  class Fetcher<T> {
    const eq: (T, T) -> bool
    const minInterval: int
    const maxInterval: int
    const hasConsumer: bool
    var cache: T
    var currentInterval: int
    var consumed: seq<T>      // what the consumer was called with
    var resets: seq<int>      // what the ticker was reset to

    /** NewFetcher and the initial fetch of Start, whose result is used even if it is an error's. */
    constructor (eq: (T, T) -> bool, min: int, max: int, hasConsumer: bool, init: T)
      ensures this.eq == eq && this.hasConsumer == hasConsumer
      ensures minInterval == if min == 0 then 4_000_000_000 else min
      ensures var wished := if max == 0 then 1_024_000_000_000 else max;
              maxInterval == if wished < minInterval then minInterval else wished
      ensures cache == init && currentInterval == minInterval && resets == []
      ensures consumed == if hasConsumer then [init] else []
    {
      this.eq, this.hasConsumer, cache := eq, hasConsumer, init;
      var low := if min == 0 then DEFAULT_MIN_INTERVAL else min;
      minInterval, currentInterval := low, low;
      maxInterval := Max(low, if max == 0 then DEFAULT_MAX_INTERVAL else max);
      consumed, resets := if hasConsumer then [init] else [], [];
    }

    /** The state after an initial result and the given fetches. */
    ghost predicate Follows(init: T, fetches: seq<Option<T>>)
      reads this
    {
      var xs := Successes(fetches);
      && cache == LastKept(eq, init, xs)
      && currentInterval == Interval(minInterval, maxInterval, Unchanged(eq, init, xs))
      && consumed == (if hasConsumer then [init] + Changes(eq, init, xs) else [])
      && resets == Resets(eq, init, minInterval, maxInterval, fetches)
    }

    /** One tick of the loop. */
    method Tick(result: Option<T>, ghost init: T, ghost fetches: seq<Option<T>>)
      requires Follows(init, fetches)
      modifies this
      ensures Follows(init, fetches + [result])
    {
      hide Successes, LastKept, Changes, Unchanged, Resets, Doubled, Interval;
      OneMoreFetch(eq, init, minInterval, maxInterval, fetches, result);
      ghost var k := Unchanged(eq, init, Successes(fetches));
      assert Interval(minInterval, maxInterval, k + 1) == Min(Doubled(currentInterval), maxInterval) &&
             Interval(minInterval, maxInterval, 0) == minInterval by { IntervalStep(minInterval, maxInterval, k); }
      if result.Some? {
        OneMoreValue(eq, init, Successes(fetches), result.value);
        if eq(result.value, cache) {
          currentInterval := Min(Doubled(currentInterval), maxInterval);
        } else {
          cache := result.value;
          currentInterval := minInterval;
          if hasConsumer {
            consumed := consumed + [result.value];
            assert consumed == [init] + (Changes(eq, init, Successes(fetches)) + [result.value]);
          }
        }
      }
      resets := resets + [currentInterval];
    }

    /** Any history of fetches, errors among them. */
    method Run(ghost init: T, fetches: seq<Option<T>>)
      requires Follows(init, [])
      modifies this
      ensures Follows(init, fetches)
    {
      assert fetches[..0] == [] && fetches[..|fetches|] == fetches;
      for i := 0 to |fetches|
        invariant Follows(init, fetches[..i])
      {
        assert fetches[..i + 1] == fetches[..i] + [fetches[i]];
        Tick(fetches[i], init, fetches[..i]);
      }
    }
  }
}
