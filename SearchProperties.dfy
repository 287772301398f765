/**
 * What the size search guarantees, for any cost function at all: the shape
 * of its history of trials, the bounds it keeps, when its result fits the
 * budget, how many trials it makes, and, for a cost that grows with the
 * width, how close it comes to the widest size that fits.
 */
module SearchProperties {
  import opened SizeSearch

  /** The bounds a trial leaves behind. */
  function After(t: Trial, maxFileSize: int): Bounds {
    Narrow(t.bounds, t.size.width, t.bytes, maxFileSize)
  }

  /** Number of widths a pair of bounds still admits, less one. */
  function Span(b: Bounds): int {
    b.max - b.min
  }

  /**
   * A trial made inside the loop: its bounds were open, its width is their
   * midpoint, its height follows the aspect ratio, and its byte count is
   * the cost of that size.
   */
  ghost predicate MidpointTrial(original: Size, cost: Cost, t: Trial)
    requires Positive(original)
  {
    0 <= t.bounds.min && !Done(t.bounds) &&
    t.size == ScaledSize(original, (t.bounds.min + t.bounds.max) / 2) &&
    t.bytes == cost(t.size)
  }

  /** `Rest` makes no trial on closed bounds, and a non-empty run starts from the bounds given. */
  lemma RestStartsAt(original: Size, maxFileSize: int, cost: Cost, b: Bounds)
    requires Positive(original) && 0 <= b.min
    ensures var o := Rest(original, maxFileSize, cost, b);
      (o.trials == [] <==> Done(b)) &&
      (o.trials == [] ==> o.final == b) &&
      (o.trials != [] ==> o.trials[0].bounds == b)
  {
    if !Done(b) {
      var s := ScaledSize(original, (b.min + b.max) / 2);
      RestStep(original, maxFileSize, cost, b, s, cost(s), Narrow(b, s.width, cost(s), maxFileSize));
    }
  }

  /**
   * Every trial `Rest` records is a midpoint trial strictly inside its
   * bounds, and those bounds lie inside `b`.
   */
  lemma {:induction false} RestTrialsInside(original: Size, maxFileSize: int, cost: Cost, b: Bounds)
    requires Positive(original) && 0 <= b.min
    ensures var o := Rest(original, maxFileSize, cost, b);
      forall i :: 0 <= i < |o.trials| ==>
        MidpointTrial(original, cost, o.trials[i]) &&
        o.trials[i].bounds.min < o.trials[i].size.width < o.trials[i].bounds.max &&
        b.min <= o.trials[i].bounds.min && o.trials[i].bounds.max <= b.max
    decreases b.max - b.min
  {
    if !Done(b) {
      var s := ScaledSize(original, (b.min + b.max) / 2);
      var next := Narrow(b, s.width, cost(s), maxFileSize);
      RestStep(original, maxFileSize, cost, b, s, cost(s), next);
      RestTrialsInside(original, maxFileSize, cost, next);
      var o', o := Rest(original, maxFileSize, cost, next), Rest(original, maxFileSize, cost, b);
      forall i | 1 <= i < |o.trials|
        ensures o.trials[i] == o'.trials[i - 1]
      {
      }
    }
  }

  /**
   * Each trial `Rest` records starts from the bounds the previous one left,
   * and the final bounds are those the last trial left.
   */
  lemma {:induction false} RestTrialsChained(original: Size, maxFileSize: int, cost: Cost, b: Bounds)
    requires Positive(original) && 0 <= b.min
    ensures var o := Rest(original, maxFileSize, cost, b);
      (forall i :: 0 <= i < |o.trials| - 1 ==> o.trials[i + 1].bounds == After(o.trials[i], maxFileSize)) &&
      (o.trials != [] ==> o.final == After(o.trials[|o.trials| - 1], maxFileSize))
    decreases b.max - b.min
  {
    if !Done(b) {
      var s := ScaledSize(original, (b.min + b.max) / 2);
      var t := Trial(b, s, cost(s));
      var next := After(t, maxFileSize);
      RestStep(original, maxFileSize, cost, b, s, cost(s), next);
      RestTrialsChained(original, maxFileSize, cost, next);
      RestStartsAt(original, maxFileSize, cost, next);
      var o', o := Rest(original, maxFileSize, cost, next), Rest(original, maxFileSize, cost, b);
      assert o.trials == [t] + o'.trials && o.final == o'.final;
      forall i | 0 <= i < |o.trials| - 1
        ensures o.trials[i + 1].bounds == After(o.trials[i], maxFileSize)
      {
        if i == 0 {
          assert o.trials[1] == o'.trials[0];
        } else {
          assert o.trials[i] == o'.trials[i - 1];
        }
      }
    }
  }

  /**
   * The history `Rest` records is the bisection: every trial is a midpoint
   * trial strictly inside its bounds and inside `b`, each trial starts from
   * the bounds the previous one left, and the final bounds are those the
   * last trial left.
   */
  lemma RestHistory(original: Size, maxFileSize: int, cost: Cost, b: Bounds)
    requires Positive(original) && 0 <= b.min
    ensures var o := Rest(original, maxFileSize, cost, b);
      (forall i :: 0 <= i < |o.trials| ==>
        MidpointTrial(original, cost, o.trials[i]) &&
        o.trials[i].bounds.min < o.trials[i].size.width < o.trials[i].bounds.max &&
        b.min <= o.trials[i].bounds.min && o.trials[i].bounds.max <= b.max) &&
      (forall i :: 0 <= i < |o.trials| - 1 ==> o.trials[i + 1].bounds == After(o.trials[i], maxFileSize)) &&
      (o.trials != [] ==> o.final == After(o.trials[|o.trials| - 1], maxFileSize))
  {
    RestTrialsInside(original, maxFileSize, cost, b);
    RestTrialsChained(original, maxFileSize, cost, b);
  }

  /**
   * The history of the whole search: the first trial is at the original
   * size from the initial bounds; every later trial is a midpoint trial
   * strictly inside its bounds and starts from the bounds the previous trial
   * left; from the second trial on the span of the bounds strictly shrinks;
   * and the search ends with the bounds the last trial left.
   */
  lemma SearchHistory(original: Size, maxFileSize: int, cost: Cost)
    requires Positive(original) && maxFileSize >= 0
    ensures var o := Search(original, maxFileSize, cost);
      o.trials[0] == Trial(InitialBounds(original, maxFileSize), original, cost(original)) &&
      (forall i :: 1 <= i < |o.trials| ==>
        MidpointTrial(original, cost, o.trials[i]) &&
        o.trials[i].bounds.min < o.trials[i].size.width < o.trials[i].bounds.max) &&
      (forall i :: 0 <= i < |o.trials| - 1 ==> o.trials[i + 1].bounds == After(o.trials[i], maxFileSize)) &&
      (forall i :: 1 <= i < |o.trials| - 1 ==> Span(o.trials[i + 1].bounds) < Span(o.trials[i].bounds)) &&
      o.final == After(o.trials[|o.trials| - 1], maxFileSize)
  {
    var b := InitialBounds(original, maxFileSize);
    var t := Trial(b, original, cost(original));
    var next := After(t, maxFileSize);
    RestHistory(original, maxFileSize, cost, next);
    RestStartsAt(original, maxFileSize, cost, next);
    var o', o := Rest(original, maxFileSize, cost, next), Search(original, maxFileSize, cost);
    assert o.trials == [t] + o'.trials;
    forall i | 1 <= i < |o.trials|
      ensures o.trials[i] == o'.trials[i - 1]
    {
    }
  }

  /** Every byte count in the history is the cost of the size that trial tried. */
  lemma TrialsMeasureCost(original: Size, maxFileSize: int, cost: Cost)
    requires Positive(original) && maxFileSize >= 0
    ensures var o := Search(original, maxFileSize, cost);
      forall i :: 0 <= i < |o.trials| ==> o.trials[i].bytes == cost(o.trials[i].size)
  {
    SearchHistory(original, maxFileSize, cost);
  }

  /**
   * When the original size already fits, the search makes that one trial
   * and returns the original size unchanged, whatever the heuristic bound.
   */
  lemma FitsAtOriginalSize(original: Size, maxFileSize: int, cost: Cost)
    requires Positive(original) && maxFileSize >= 0
    requires cost(original) <= maxFileSize
    ensures Search(original, maxFileSize, cost).trials ==
      [Trial(InitialBounds(original, maxFileSize), original, cost(original))]
    ensures OptimumSize(original, maxFileSize, cost) == original
  {
    ScaledSizeRoundsDown(original, original.width);
  }

  /**
   * From bounds whose lower end is the heuristic or a width that fits, the
   * rest of the search ends with such a lower bound too.
   */
  lemma {:induction false} RestMinFits(original: Size, maxFileSize: int, cost: Cost, b: Bounds, heuristic: int)
    requires Positive(original) && 0 <= b.min
    requires b.min == heuristic || cost(ScaledSize(original, b.min)) <= maxFileSize
    ensures var m := Rest(original, maxFileSize, cost, b).final.min;
      m == heuristic || cost(ScaledSize(original, m)) <= maxFileSize
    decreases b.max - b.min
  {
    if !Done(b) {
      var s := ScaledSize(original, (b.min + b.max) / 2);
      var next := Narrow(b, s.width, cost(s), maxFileSize);
      RestStep(original, maxFileSize, cost, b, s, cost(s), next);
      RestMinFits(original, maxFileSize, cost, next, heuristic);
    }
  }

  /**
   * From bounds whose upper end is the original width or one less than a
   * width that does not fit, the rest of the search ends with such an
   * upper bound too.
   */
  lemma {:induction false} RestMaxExceeds(original: Size, maxFileSize: int, cost: Cost, b: Bounds)
    requires Positive(original) && 0 <= b.min
    requires b.max == original.width ||
      (b.max + 1 >= 0 && cost(ScaledSize(original, b.max + 1)) > maxFileSize)
    ensures var m := Rest(original, maxFileSize, cost, b).final.max;
      m == original.width || (m + 1 >= 0 && cost(ScaledSize(original, m + 1)) > maxFileSize)
    decreases b.max - b.min
  {
    if !Done(b) {
      var s := ScaledSize(original, (b.min + b.max) / 2);
      var next := Narrow(b, s.width, cost(s), maxFileSize);
      RestStep(original, maxFileSize, cost, b, s, cost(s), next);
      if cost(s) > maxFileSize {
        assert ScaledSize(original, next.max + 1) == s;
      }
      RestMaxExceeds(original, maxFileSize, cost, next);
    }
  }

  /**
   * The final lower bound is the heuristic bound or a width whose trial
   * fitted the budget; the final upper bound is the original width or one
   * less than a width whose trial exceeded it.
   */
  lemma SearchBoundsInvariant(original: Size, maxFileSize: int, cost: Cost)
    requires Positive(original) && maxFileSize >= 0
    ensures var f := Search(original, maxFileSize, cost).final;
      f.min == MinimumPossibleWidth(original, maxFileSize) ||
      cost(ScaledSize(original, f.min)) <= maxFileSize
    ensures var f := Search(original, maxFileSize, cost).final;
      f.max == original.width ||
      (f.max + 1 >= 0 && cost(ScaledSize(original, f.max + 1)) > maxFileSize)
  {
    var b := InitialBounds(original, maxFileSize);
    var next := Narrow(b, original.width, cost(original), maxFileSize);
    ScaledSizeRoundsDown(original, original.width);
    RestMinFits(original, maxFileSize, cost, next, b.min);
    RestMaxExceeds(original, maxFileSize, cost, next);
  }

  /**
   * Once a trial of the loop fits the budget it raises the lower bound to
   * its own width, and the lower bound keeps fitting from then on: the final
   * lower bound fits.
   */
  lemma {:induction false} RestFitsAfterFittingTrial(original: Size, maxFileSize: int, cost: Cost,
                                                     b: Bounds, i: int)
    requires Positive(original) && 0 <= b.min
    requires var o := Rest(original, maxFileSize, cost, b);
      0 <= i < |o.trials| && o.trials[i].bytes <= maxFileSize
    ensures cost(ScaledSize(original, Rest(original, maxFileSize, cost, b).final.min)) <= maxFileSize
    decreases b.max - b.min
  {
    RestStartsAt(original, maxFileSize, cost, b);
    var s := ScaledSize(original, (b.min + b.max) / 2);
    var next := Narrow(b, s.width, cost(s), maxFileSize);
    RestStep(original, maxFileSize, cost, b, s, cost(s), next);
    if i == 0 {
      assert ScaledSize(original, next.min) == s;
      RestMinFits(original, maxFileSize, cost, next, -1);
    } else {
      assert Rest(original, maxFileSize, cost, b).trials[i] == Rest(original, maxFileSize, cost, next).trials[i - 1];
      RestFitsAfterFittingTrial(original, maxFileSize, cost, next, i - 1);
    }
  }

  /** While no trial of the loop fits the budget, the lower bound never moves. */
  lemma {:induction false} RestKeepsMinWithoutFit(original: Size, maxFileSize: int, cost: Cost, b: Bounds)
    requires Positive(original) && 0 <= b.min
    requires var o := Rest(original, maxFileSize, cost, b);
      forall i :: 0 <= i < |o.trials| ==> o.trials[i].bytes > maxFileSize
    ensures Rest(original, maxFileSize, cost, b).final.min == b.min
    decreases b.max - b.min
  {
    if !Done(b) {
      var s := ScaledSize(original, (b.min + b.max) / 2);
      var next := Narrow(b, s.width, cost(s), maxFileSize);
      RestStep(original, maxFileSize, cost, b, s, cost(s), next);
      var o, o' := Rest(original, maxFileSize, cost, b), Rest(original, maxFileSize, cost, next);
      assert o.trials[0].bytes > maxFileSize;
      forall i | 0 <= i < |o'.trials|
        ensures o'.trials[i].bytes > maxFileSize
      {
        assert o'.trials[i] == o.trials[i + 1];
      }
      RestKeepsMinWithoutFit(original, maxFileSize, cost, next);
    }
  }

  /**
   * The size returned fits the budget as soon as any trial fitted; when no
   * trial fitted, no trial set the lower bound and the size returned is the
   * heuristic width, scaled.
   */
  lemma ResultFitsIfAnyTrialFits(original: Size, maxFileSize: int, cost: Cost)
    requires Positive(original) && maxFileSize >= 0
    ensures var o := Search(original, maxFileSize, cost);
      (exists i :: 0 <= i < |o.trials| && o.trials[i].bytes <= maxFileSize) ==>
        cost(OptimumSize(original, maxFileSize, cost)) <= maxFileSize
    ensures var o := Search(original, maxFileSize, cost);
      (forall i :: 0 <= i < |o.trials| ==> o.trials[i].bytes > maxFileSize) ==>
        OptimumSize(original, maxFileSize, cost).width == MinimumPossibleWidth(original, maxFileSize)
  {
    var b := InitialBounds(original, maxFileSize);
    var t := Trial(b, original, cost(original));
    var next := Narrow(b, original.width, t.bytes, maxFileSize);
    var o, o' := Search(original, maxFileSize, cost), Rest(original, maxFileSize, cost, next);
    assert o.trials == [t] + o'.trials && o.final == o'.final;
    if i :| 0 <= i < |o.trials| && o.trials[i].bytes <= maxFileSize {
      if t.bytes <= maxFileSize {
        ScaledSizeRoundsDown(original, original.width);
        RestMinFits(original, maxFileSize, cost, next, -1);
      } else {
        assert o.trials[i] == o'.trials[i - 1];
        RestFitsAfterFittingTrial(original, maxFileSize, cost, next, i - 1);
      }
    } else {
      forall i | 0 <= i < |o'.trials|
        ensures o'.trials[i].bytes > maxFileSize
      {
        assert o'.trials[i] == o.trials[i + 1];
      }
      RestKeepsMinWithoutFit(original, maxFileSize, cost, next);
    }
  }

  /**
   * The size returned keeps the aspect ratio, rounding the height down. Its
   * width exceeds the original only when it is the heuristic bound, and
   * falls below the heuristic bound only when it is the original size.
   */
  lemma ResultShape(original: Size, maxFileSize: int, cost: Cost)
    requires Positive(original) && maxFileSize >= 0
    ensures var r := OptimumSize(original, maxFileSize, cost);
      var h := MinimumPossibleWidth(original, maxFileSize);
      0 <= r.height &&
      r.height * original.width <= r.width * original.height < (r.height + 1) * original.width &&
      (r.width <= original.width || r.width == h) &&
      (r.width >= h || r == original)
  {
    var b := InitialBounds(original, maxFileSize);
    var next := Narrow(b, original.width, cost(original), maxFileSize);
    RestStartsAt(original, maxFileSize, cost, next);
    ScaledSizeRoundsDown(original, original.width);
    ScaledSizeRoundsDown(original, Search(original, maxFileSize, cost).final.min);
  }

  /** 2 to the power `n`. */
  function Pow2(n: nat): (r: nat)
    ensures r >= 1
  {
    if n == 0 then 1 else 2 * Pow2(n - 1)
  }

  /** From open bounds of span L, `Rest` makes k trials with 2^k <= 2(L-1). */
  lemma {:induction false} RestTrialCount(original: Size, maxFileSize: int, cost: Cost, b: Bounds)
    requires Positive(original) && 0 <= b.min && !Done(b)
    ensures Pow2(|Rest(original, maxFileSize, cost, b).trials|) <= 2 * (Span(b) - 1)
    decreases b.max - b.min
  {
    var s := ScaledSize(original, (b.min + b.max) / 2);
    var next := Narrow(b, s.width, cost(s), maxFileSize);
    RestStep(original, maxFileSize, cost, b, s, cost(s), next);
    RestStartsAt(original, maxFileSize, cost, next);
    assert 2 * Span(next) <= Span(b) + 1;
    if !Done(next) {
      RestTrialCount(original, maxFileSize, cost, next);
    }
  }

  /**
   * The search makes n trials with 2^(n-1) <= 2W: logarithmically many in
   * the original width W, whatever the cost function.
   */
  lemma SearchTrialCount(original: Size, maxFileSize: int, cost: Cost)
    requires Positive(original) && maxFileSize >= 0
    ensures Pow2(|Search(original, maxFileSize, cost).trials| - 1) <= 2 * original.width
  {
    var b := InitialBounds(original, maxFileSize);
    var next := Narrow(b, original.width, cost(original), maxFileSize);
    RestStartsAt(original, maxFileSize, cost, next);
    if !Done(next) {
      RestTrialCount(original, maxFileSize, cost, next);
    }
  }

  /** The encoded size never shrinks as the width grows. */
  ghost predicate MonotoneInWidth(original: Size, cost: Cost)
    requires Positive(original)
  {
    forall a, c :: 0 <= a <= c ==> cost(ScaledSize(original, a)) <= cost(ScaledSize(original, c))
  }

  /**
   * For a cost that grows with the width, every width up to the original
   * that fits the budget is at most one more than the width returned.
   */
  lemma WithinOneOfLargestFit(original: Size, maxFileSize: int, cost: Cost, w: int)
    requires Positive(original) && maxFileSize >= 0
    requires MonotoneInWidth(original, cost)
    requires 0 <= w <= original.width && cost(ScaledSize(original, w)) <= maxFileSize
    ensures w <= OptimumSize(original, maxFileSize, cost).width + 1
  {
    SearchBoundsInvariant(original, maxFileSize, cost);
  }

  /**
   * The bound of one is reached: for a 4x4 image and a budget of 10 bytes
   * that every width up to 3 fits and width 4 exceeds, the search returns
   * width 2 and never tries width 3, because it stops as soon as the bounds
   * are adjacent.
   */
  lemma StopsOneShortOfLargestFit(cost: Cost)
    requires forall s: Size :: cost(s) <= 10 <==> s.width <= 3
    ensures cost(Size(3, 3)) <= 10
    ensures OptimumSize(Size(4, 4), 10, cost) == Size(2, 2)
  {
    var original := Size(4, 4);
    assert MinimumPossibleWidth(original, 10) == 0;
    var b1 := Narrow(Bounds(0, 4), 4, cost(original), 10);
    assert b1 == Bounds(0, 3);
    var s2 := ScaledSize(original, 1);
    assert s2 == Size(1, 1);
    var b2 := Narrow(b1, 1, cost(s2), 10);
    assert b2 == Bounds(1, 3);
    var s3 := ScaledSize(original, 2);
    assert s3 == Size(2, 2);
    var b3 := Narrow(b2, 2, cost(s3), 10);
    assert b3 == Bounds(2, 3);
    RestStep(original, 10, cost, b1, s2, cost(s2), b2);
    RestStep(original, 10, cost, b2, s3, cost(s3), b3);
    RestStartsAt(original, 10, cost, b3);
  }
}
