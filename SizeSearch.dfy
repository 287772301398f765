/**
 * The size search of FileResizer.GetOptimumImageSize: a binary search over
 * integer widths for the widest aspect-preserving size whose encoded byte
 * count stays within the budget.
 *
 * The cost of a trial (resize, re-encode, count the bytes) is a black box:
 * every definition here takes it as a function value `cost`, and nothing
 * assumes it is monotone.
 *
 * `Search` is the reference definition of the loop, one trial per step, and
 * records the history of trials; `GetOptimumImageSize` is the loop itself,
 * proved to return what `Search` determines.
 */
module SizeSearch {

  /** An image size in pixels. */
  datatype Size = Size(width: int, height: int)

  /** The search bounds `minPossibleWidth` and `maxPossibleWidth`. */
  datatype Bounds = Bounds(min: int, max: int)

  /** One trial: the bounds before it, the size tried and the byte count measured. */
  datatype Trial = Trial(bounds: Bounds, size: Size, bytes: int)

  /** A whole search: the trials in the order made and the bounds on exit. */
  datatype Run = Run(trials: seq<Trial>, final: Bounds)

  /** Encoded byte count of the image resized to a given size. */
  type Cost = Size -> int

  predicate Positive(s: Size) {
    s.width > 0 && s.height > 0
  }

  /**
   * The rough lower bound for the width: the widest image that fits the
   * budget at 4 bytes per pixel, uncompressed; 0 for a degenerate size.
   */
  function MinimumPossibleWidth(size: Size, maxFileSize: int): (r: int)
    requires size.width >= 0 && size.height >= 0 && maxFileSize >= 0
    ensures size.width == 0 || size.height == 0 ==> r == 0
    ensures Positive(size) ==>
      0 <= r && 4 * size.height * r <= maxFileSize < 4 * size.height * (r + 1)
  {
    if size.width == 0 || size.height == 0 then 0
    else
      var bytesPerRow := 4 * size.height;
      DivisionBrackets(maxFileSize, bytesPerRow);
      maxFileSize / bytesPerRow
  }

  /** Integer division brackets the dividend between two multiples of the divisor. */
  lemma DivisionBrackets(a: int, d: int)
    requires a >= 0 && d > 0
    ensures 0 <= a / d && d * (a / d) <= a < d * (a / d + 1)
  {
    assert a == d * (a / d) + a % d;
  }

  /**
   * The size of width `w` with the original aspect ratio: the height is
   * rounded down, and the original width gives back the original size.
   */
  function ScaledSize(original: Size, w: int): (r: Size)
    requires Positive(original) && w >= 0
    ensures r.width == w
  {
    Size(w, w * original.height / original.width)
  }

  /**
   * The scaled height is the aspect-ratio height rounded down, and scaling
   * to the original width gives back the original size.
   */
  lemma ScaledSizeRoundsDown(original: Size, w: int)
    requires Positive(original) && w >= 0
    ensures var r := ScaledSize(original, w);
      0 <= r.height &&
      r.height * original.width <= w * original.height < (r.height + 1) * original.width
    ensures w == original.width ==> ScaledSize(original, w) == original
  {
    DivisionBrackets(w * original.height, original.width);
    if w == original.width {
      var h := ScaledSize(original, w).height;
      assert w * original.height == original.width * original.height;
      if h < original.height {
        MultiplyMonotone(original.width, h + 1, original.height);
      } else if h > original.height {
        MultiplyMonotone(original.width, original.height + 1, h);
      }
    }
  }

  /** Multiplying by a non-negative factor preserves order. */
  lemma MultiplyMonotone(d: int, x: int, y: int)
    requires d >= 0 && x <= y
    ensures d * x <= d * y
  {
    assert d * y - d * x == d * (y - x);
  }

  /** The loop's exit test: nothing lies strictly between the bounds. */
  predicate Done(b: Bounds) {
    b.max <= b.min + 1
  }

  /** Tighten the bounds after the trial of width `w` measured `bytes`. */
  function Narrow(b: Bounds, w: int, bytes: int, maxFileSize: int): Bounds {
    if bytes > maxFileSize then Bounds(b.min, w - 1) else Bounds(w, b.max)
  }

  /**
   * The search from bounds `b` on: while the bounds are open, try the
   * midpoint width and tighten. Every trial lies strictly inside the bounds
   * it was made from, so the bounds only ever close in.
   */
  function Rest(original: Size, maxFileSize: int, cost: Cost, b: Bounds): (o: Run)
    requires Positive(original) && 0 <= b.min
    ensures Done(o.final)
    ensures b.min <= o.final.min && o.final.max <= b.max
    ensures !Done(b) ==> o.final.min < b.max
    decreases b.max - b.min
  {
    if Done(b) then Run([], b)
    else
      var w := (b.min + b.max) / 2;
      var t := Trial(b, ScaledSize(original, w), cost(ScaledSize(original, w)));
      var o := Rest(original, maxFileSize, cost, Narrow(b, w, t.bytes, maxFileSize));
      Run([t] + o.trials, o.final)
  }

  /**
   * One step of `Rest`: the trial of size `s` at the midpoint measured
   * `bytes`, then the rest of the search from the tightened bounds `next`.
   */
  lemma RestStep(original: Size, maxFileSize: int, cost: Cost, b: Bounds, s: Size, bytes: int, next: Bounds)
    requires Positive(original) && 0 <= b.min && !Done(b)
    requires s == ScaledSize(original, (b.min + b.max) / 2) && bytes == cost(s)
    requires next == Narrow(b, s.width, bytes, maxFileSize)
    ensures 0 <= next.min
    ensures var o := Rest(original, maxFileSize, cost, next);
      Rest(original, maxFileSize, cost, b) == Run([Trial(b, s, bytes)] + o.trials, o.final)
  {
  }

  /** The bounds the search starts from. */
  function InitialBounds(original: Size, maxFileSize: int): Bounds
    requires Positive(original) && maxFileSize >= 0
  {
    Bounds(MinimumPossibleWidth(original, maxFileSize), original.width)
  }

  /**
   * The whole search: the first trial is always at the original, unscaled
   * size; the bounds are then tightened and the search continues as `Rest`.
   */
  function Search(original: Size, maxFileSize: int, cost: Cost): (o: Run)
    requires Positive(original) && maxFileSize >= 0
    ensures |o.trials| >= 1
    ensures o.trials[0] == Trial(InitialBounds(original, maxFileSize), original, cost(original))
    ensures Done(o.final) && 0 <= o.final.min
  {
    var b := InitialBounds(original, maxFileSize);
    var t := Trial(b, original, cost(original));
    var o := Rest(original, maxFileSize, cost, Narrow(b, original.width, t.bytes, maxFileSize));
    Run([t] + o.trials, o.final)
  }

  /**
   * The size the search settles on: the final lower bound, scaled. It is
   * never wider than the original unless it is the heuristic lower bound
   * itself, and never narrower than that bound unless it is the original.
   */
  function OptimumSize(original: Size, maxFileSize: int, cost: Cost): Size
    requires Positive(original) && maxFileSize >= 0
  {
    ScaledSize(original, Search(original, maxFileSize, cost).final.min)
  }

  /**
   * What holds at the head of the search loop: before the first trial the
   * state is the initial one; after it, the trial pending in `trySize` is
   * the midpoint of the bounds, and the trials made so far followed by the
   * rest of the search from the current bounds make up the whole search.
   */
  ghost predicate LoopInvariant(size: Size, maxFileSize: int, cost: Cost,
                                first: bool, trials: seq<Trial>, b: Bounds, trySize: Size)
    requires Positive(size) && maxFileSize >= 0
  {
    0 <= b.min && 0 <= b.max &&
    (first ==> trials == [] && trySize == size && b == InitialBounds(size, maxFileSize)) &&
    (!first ==>
      trySize == ScaledSize(size, (b.min + b.max) / 2) &&
      var rest := Rest(size, maxFileSize, cost, b);
      Search(size, maxFileSize, cost) == Run(trials + rest.trials, rest.final))
  }

  /** One pass of the loop body keeps the invariant and, after the first pass, closes in the bounds. */
  lemma LoopStep(size: Size, maxFileSize: int, cost: Cost,
                 first: bool, trials: seq<Trial>, b: Bounds, trySize: Size, bytes: int, next: Bounds)
    requires Positive(size) && maxFileSize >= 0
    requires LoopInvariant(size, maxFileSize, cost, first, trials, b, trySize)
    requires first || !Done(b)
    requires bytes == cost(trySize) && next == Narrow(b, trySize.width, bytes, maxFileSize)
    ensures 0 <= next.min
    ensures !first ==> next.max - next.min < b.max - b.min
    ensures LoopInvariant(size, maxFileSize, cost, false, trials + [Trial(b, trySize, bytes)],
                          next, ScaledSize(size, (next.min + next.max) / 2))
  {
    if first {
      FirstPass(size, maxFileSize, cost, b, bytes);
    } else {
      LaterPass(size, maxFileSize, cost, trials, b, trySize);
    }
  }

  /** The first pass tries the original size from the initial bounds. */
  lemma FirstPass(size: Size, maxFileSize: int, cost: Cost, b: Bounds, bytes: int)
    requires Positive(size) && maxFileSize >= 0
    requires b == InitialBounds(size, maxFileSize) && bytes == cost(size)
    ensures var next := Narrow(b, size.width, bytes, maxFileSize);
      0 <= next.min && 0 <= next.max &&
      var rest := Rest(size, maxFileSize, cost, next);
      Search(size, maxFileSize, cost) == Run([Trial(b, size, bytes)] + rest.trials, rest.final)
  {
  }

  /** A later pass tries the midpoint of open bounds: one step of `Rest`. */
  lemma LaterPass(size: Size, maxFileSize: int, cost: Cost,
                  trials: seq<Trial>, b: Bounds, trySize: Size)
    requires Positive(size) && maxFileSize >= 0 && 0 <= b.min && !Done(b)
    requires trySize == ScaledSize(size, (b.min + b.max) / 2)
    requires var rest := Rest(size, maxFileSize, cost, b);
      Search(size, maxFileSize, cost) == Run(trials + rest.trials, rest.final)
    ensures var next := Narrow(b, trySize.width, cost(trySize), maxFileSize);
      0 <= next.min && 0 <= next.max && next.max - next.min < b.max - b.min &&
      var rest := Rest(size, maxFileSize, cost, next);
      Search(size, maxFileSize, cost) ==
        Run(trials + [Trial(b, trySize, cost(trySize))] + rest.trials, rest.final)
  {
    var t := Trial(b, trySize, cost(trySize));
    var next := Narrow(b, trySize.width, t.bytes, maxFileSize);
    var rest := Rest(size, maxFileSize, cost, next);
    RestStep(size, maxFileSize, cost, b, trySize, t.bytes, next);
    assert trials + ([t] + rest.trials) == trials + [t] + rest.trials;
  }

  /** On exit from the loop the search is over and its bounds are the loop's. */
  lemma LoopExit(size: Size, maxFileSize: int, cost: Cost,
                 trials: seq<Trial>, b: Bounds, trySize: Size)
    requires Positive(size) && maxFileSize >= 0
    requires LoopInvariant(size, maxFileSize, cost, false, trials, b, trySize) && Done(b)
    ensures Search(size, maxFileSize, cost) == Run(trials, b)
  {
    assert trials + [] == trials;
  }

  /**
   * The do-while loop of the source. The bounds are the two locals the loop
   * updates; `trials` is the ghost history of what it measured.
   */
  method GetOptimumImageSize(size: Size, maxFileSize: int, cost: Cost)
    returns (result: Size, ghost trials: seq<Trial>)
    requires Positive(size) && maxFileSize >= 0
    ensures result == OptimumSize(size, maxFileSize, cost)
    ensures trials == Search(size, maxFileSize, cost).trials
  {
    var maxPossibleWidth := size.width;
    var minPossibleWidth := MinimumPossibleWidth(size, maxFileSize);
    var imageFileSize := 0;
    var trySize := size;
    var first := true;
    trials := [];
    while first || maxPossibleWidth > minPossibleWidth + 1
      invariant LoopInvariant(size, maxFileSize, cost, first, trials,
                              Bounds(minPossibleWidth, maxPossibleWidth), trySize)
      decreases first, maxPossibleWidth - minPossibleWidth
    {
      ghost var before := Bounds(minPossibleWidth, maxPossibleWidth);
      imageFileSize := cost(trySize);
      if imageFileSize > maxFileSize {
        maxPossibleWidth := trySize.width - 1;
      } else {
        minPossibleWidth := trySize.width;
      }
      LoopStep(size, maxFileSize, cost, first, trials, before, trySize, imageFileSize,
               Bounds(minPossibleWidth, maxPossibleWidth));
      trials := trials + [Trial(before, trySize, imageFileSize)];
      var tryWidth := (minPossibleWidth + maxPossibleWidth) / 2;
      var tryHeight := (tryWidth * size.height) / size.width;
      trySize := Size(tryWidth, tryHeight);
      assert trySize == ScaledSize(size, tryWidth);
      first := false;
    }
    LoopExit(size, maxFileSize, cost, trials, Bounds(minPossibleWidth, maxPossibleWidth), trySize);
    result := Size(minPossibleWidth, (minPossibleWidth * size.height) / size.width);
  }
}
