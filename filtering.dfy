/** image_processing/filtering.py: averaging, median and Laplacian spatial filters.
    Each pads the single-channel image with k/2 zero samples on every side and
    slides a k-by-k window over the padded copy. */
module Filtering {
  import opened Grids
  import Utils

  /** The side of a filter's output for an input side n and kernel size k:
      n + 2*(k/2) - k + 1, which is n for odd k and n + 1 for even k. */
  function FilteredSize(n: nat, k: nat): (m: nat)
    requires k >= 1
    ensures m == (if k % 2 == 1 then n else n + 1)
  {
    n + 2 * (k / 2) - k + 1
  }

  /** The sum of the k-by-k window at (r, c) of g. */
  function WindowSum(g: Image, r: nat, c: nat, k: nat): int
    requires Rect(g) && r + k <= |g| && c + k <= Width(g)
  {
    GridSum(SubGrid(g, r, c, k, k))
  }

  /** apply_averaging_filter in exact arithmetic: the k*k weights 1/k^2 applied to the
      zero-padded window, truncated to an integer, which is the floor of the window
      sum divided by k^2. */
  function AveragingFilter(image: Image, k: nat): (out: Image)
    requires NonEmpty(image) && Pixels(image) && k >= 1
    ensures IsShape(out, FilteredSize(|image|, k), FilteredSize(Width(image), k))
    ensures forall r, c | 0 <= r < |out| && 0 <= c < |out[r]| ::
      out[r][c] == WindowSum(ZeroPad(image, k / 2, k / 2), r, c, k) / (k * k)
  {
    var padded := ZeroPad(image, k / 2, k / 2);
    var ones := Constant(k, k, 1);
    var sums := Utils.Convolve(padded, ones);
    var out := seq(|sums|, r requires 0 <= r < |sums| =>
      seq(|sums[r]|, c requires 0 <= c < |sums[r]| => sums[r][c] / (k * k)));
    assert IsShape(out, FilteredSize(|image|, k), FilteredSize(Width(image), k));
    assert forall r, c | 0 <= r < |out| && 0 <= c < |out[r]| ::
      out[r][c] == WindowSum(padded, r, c, k) / (k * k) by {
      forall r, c | 0 <= r < |out| && 0 <= c < |out[r]|
        ensures out[r][c] == WindowSum(padded, r, c, k) / (k * k)
      {
        assert out[r][c] == sums[r][c] / (k * k);
        DotConstantRight(SubGrid(padded, r, c, k, k), ones, 1);
      }
    }
    out
  }

  lemma PaddedPixels(image: Image, p: nat)
    requires Rect(image) && Pixels(image)
    ensures Pixels(ZeroPad(image, p, p))
  {
  }

  /** Every window of the zero-padded copy of a byte image holds bytes. */
  lemma PaddedWindowPixels(image: Image, p: nat, r: nat, c: nat, k: nat)
    requires Rect(image) && Pixels(image)
    requires r + k <= |image| + 2 * p && c + k <= Width(image) + 2 * p
    ensures forall i, j | 0 <= i < k && 0 <= j < k :: 0 <= SubGrid(ZeroPad(image, p, p), r, c, k, k)[i][j] <= 255
  {
    var padded := ZeroPad(image, p, p);
    PaddedPixels(image, p);
    var w := SubGrid(padded, r, c, k, k);
    forall i, j | 0 <= i < k && 0 <= j < k ensures 0 <= w[i][j] <= 255 {
      assert w[i][j] == padded[r + i][c + j];
    }
  }

  /** Averaging a byte image gives a byte image: every output lies in [0, 255]. */
  lemma AveragingStaysInRange(image: Image, k: nat)
    requires NonEmpty(image) && Pixels(image) && k >= 1
    ensures Pixels(AveragingFilter(image, k))
  {
    var out := AveragingFilter(image, k);
    forall r, c | 0 <= r < |out| && 0 <= c < |out[r]| ensures 0 <= out[r][c] <= 255 {
      WindowAverageInRange(image, k, r, c);
    }
  }

  lemma WindowAverageInRange(image: Image, k: nat, r: nat, c: nat)
    requires NonEmpty(image) && Pixels(image) && k >= 1
    requires r < FilteredSize(|image|, k) && c < FilteredSize(Width(image), k)
    ensures 0 <= WindowSum(ZeroPad(image, k / 2, k / 2), r, c, k) / (k * k) <= 255
  {
    var w := SubGrid(ZeroPad(image, k / 2, k / 2), r, c, k, k);
    PaddedWindowPixels(image, k / 2, r, c, k);
    GridSumBounds(w, k, k, 0, 255);
    MulMonotone(k, 1, k);
    DivideIntoByteRange(GridSum(w), k * k);
  }

  /** Where the whole window lies inside a constant image, the average is that constant. */
  lemma AveragingOfConstantInterior(image: Image, k: nat, v: int, r: nat, c: nat)
    requires NonEmpty(image) && Pixels(image) && IsConstant(image, v) && k >= 1
    requires k / 2 <= r && r + k - k / 2 <= |image|
    requires k / 2 <= c && c + k - k / 2 <= Width(image)
    ensures AveragingFilter(image, k)[r][c] == v
  {
    var p := k / 2;
    var padded := ZeroPad(image, p, p);
    var w := SubGrid(padded, r, c, k, k);
    forall i, j | 0 <= i < k && 0 <= j < k ensures w[i][j] == v {
      assert w[i][j] == At(image, r + i - p, c + j - p);
    }
    GridSumConstant(w, k, k, v);
    var n := k * k;
    assert n >= 1 by { MulMonotone(k, 1, k); }
    assert GridSum(w) == n * v;
    DivideExactly(n, v);
  }

  predicate Sorted(s: seq<int>) {
    forall i, j | 0 <= i < j < |s| :: s[i] <= s[j]
  }

  function Insert(x: int, s: seq<int>): (t: seq<int>)
    requires Sorted(s)
    ensures Sorted(t) && multiset(t) == multiset(s) + multiset{x}
    ensures |t| == |s| + 1 && (t[0] == x || (s != [] && t[0] == s[0]))
  {
    if s == [] || x <= s[0] then
      [x] + s
    else
      var rest := Insert(x, s[1..]);
      assert s == [s[0]] + s[1..];
      [s[0]] + rest
  }

  /** Inserting x adds one to the number of values at most v exactly when x <= v,
      and one to the number at least v exactly when x >= v. */
  lemma {:induction false} InsertCounts(x: int, s: seq<int>, v: int)
    requires Sorted(s)
    ensures CountAtMost(Insert(x, s), v) == CountAtMost(s, v) + (if x <= v then 1 else 0)
    ensures CountAtLeast(Insert(x, s), v) == CountAtLeast(s, v) + (if x >= v then 1 else 0)
  {
    var t := Insert(x, s);
    if s == [] || x <= s[0] {
      assert t[1..] == s;
    } else {
      assert t[1..] == Insert(x, s[1..]);
      InsertCounts(x, s[1..], v);
    }
  }

  /** The window values in ascending order (insertion sort). */
  function Sort(s: seq<int>): (t: seq<int>)
    ensures Sorted(t) && multiset(t) == multiset(s) && |t| == |s|
  {
    if s == [] then []
    else
      var rest := Sort(s[1..]);
      assert multiset(s) == multiset{s[0]} + multiset(s[1..]) by {
        assert s == [s[0]] + s[1..];
      }
      Insert(s[0], rest)
  }

  /** Sorting keeps how many values lie at most, and at least, any v. */
  lemma {:induction false} SortCounts(s: seq<int>, v: int)
    ensures CountAtMost(Sort(s), v) == CountAtMost(s, v)
    ensures CountAtLeast(Sort(s), v) == CountAtLeast(s, v)
  {
    if s != [] {
      SortCounts(s[1..], v);
      InsertCounts(s[0], Sort(s[1..]), v);
    }
  }

  /** numpy.median followed by the uint8 cast: the middle value of the sorted window,
      or, when the count is even, the floor of the mean of the two middle values
      (the cast truncates, which is the floor for the non-negative samples of a
      byte image). */
  function Median(s: seq<int>): int
    requires |s| >= 1
  {
    Middle(Sort(s))
  }

  /** The middle value of t, or the floor of the mean of its two middle values. */
  function Middle(t: seq<int>): int
    requires |t| >= 1
  {
    var n := |t|;
    if n % 2 == 1 then t[n / 2] else (t[n / 2 - 1] + t[n / 2]) / 2
  }

  lemma {:induction false} CountAtMostPrefix(t: seq<int>, v: int, k: nat)
    requires k <= |t| && forall j | 0 <= j < k :: t[j] <= v
    ensures CountAtMost(t, v) >= k
  {
    if k > 0 {
      CountAtMostPrefix(t[1..], v, k - 1);
    }
  }

  lemma {:induction false} CountAtLeastSuffix(t: seq<int>, v: int, k: nat)
    requires k <= |t| && forall j | k <= j < |t| :: t[j] >= v
    ensures CountAtLeast(t, v) >= |t| - k
  {
    if t != [] {
      if k == 0 {
        CountAtLeastSuffix(t[1..], v, 0);
      } else {
        CountAtLeastSuffix(t[1..], v, k - 1);
      }
    }
  }

  /** For an odd number n of values the median is one of them, and at least
      (n+1)/2 values are at most it and at least (n+1)/2 are at least it: it is
      the ((n+1)/2)-th smallest. */
  lemma MedianIsMiddleOrderStatistic(s: seq<int>)
    requires |s| % 2 == 1
    ensures Median(s) in s
    ensures CountAtMost(s, Median(s)) >= (|s| + 1) / 2
    ensures CountAtLeast(s, Median(s)) >= (|s| + 1) / 2
  {
    var t := Sort(s);
    var n := |s|;
    var h := n / 2;
    var m := t[h];
    assert Median(s) == m;
    assert m in multiset(s) by {
      assert m in multiset(t);
    }
    SortCounts(s, m);
    SortedPrefixAtMost(t, h);
    CountAtMostPrefix(t, m, h + 1);
    SortedSuffixAtLeast(t, h);
    CountAtLeastSuffix(t, m, h);
  }

  lemma SortedPrefixAtMost(t: seq<int>, h: nat)
    requires Sorted(t) && h < |t|
    ensures forall j | 0 <= j < h + 1 :: t[j] <= t[h]
  {
  }

  lemma SortedSuffixAtLeast(t: seq<int>, h: nat)
    requires Sorted(t) && h < |t|
    ensures forall j | h <= j < |t| :: t[j] >= t[h]
  {
  }

  /** The median of any non-empty window lies between its minimum and its maximum. */
  lemma MedianIsBetweenMinAndMax(s: seq<int>)
    requires |s| >= 1
    ensures SeqMin(s) <= Median(s) <= SeqMax(s)
  {
    var n := |s|;
    SortedSampleBetween(s, n / 2);
    if n % 2 == 0 {
      SortedSampleBetween(s, n / 2 - 1);
    }
    MiddleBetween(Sort(s), SeqMin(s), SeqMax(s));
  }

  /** The middle value (or truncated mean of the two middle values) of t. */
  lemma MiddleBetween(t: seq<int>, lo: int, hi: int)
    requires |t| >= 1 && lo <= t[|t| / 2] <= hi
    requires |t| % 2 == 0 ==> lo <= t[|t| / 2 - 1] <= hi
    ensures lo <= Middle(t) <= hi
  {
  }

  lemma SortedSampleBetween(s: seq<int>, i: nat)
    requires i < |s|
    ensures SeqMin(s) <= Sort(s)[i] <= SeqMax(s)
  {
    var t := Sort(s);
    assert t[i] in multiset(t);
    SampleBetweenMinAndMax(s, t[i]);
  }

  lemma SampleBetweenMinAndMax(s: seq<int>, e: int)
    requires e in multiset(s)
    ensures SeqMin(s) <= e <= SeqMax(s)
  {
    var j :| 0 <= j < |s| && s[j] == e;
  }

  /** apply_median_filter: the median of each k-by-k window of the zero-padded image. */
  function MedianFilter(image: Image, k: nat): (out: Image)
    requires NonEmpty(image) && Pixels(image) && k >= 1
    ensures IsShape(out, FilteredSize(|image|, k), FilteredSize(Width(image), k))
  {
    var padded := ZeroPad(image, k / 2, k / 2);
    seq(FilteredSize(|image|, k), r requires 0 <= r < FilteredSize(|image|, k) =>
      seq(FilteredSize(Width(image), k), c requires 0 <= c < FilteredSize(Width(image), k) =>
        Median(Flatten(SubGrid(padded, r, c, k, k)))))
  }

  /** With an odd kernel every median-filter output is a sample of its zero-padded
      window, the ((k*k+1)/2)-th smallest of the k*k samples, and lies between the
      window's minimum and maximum. */
  lemma MedianFilterIsOrderStatistic(image: Image, k: nat, r: nat, c: nat)
    requires NonEmpty(image) && Pixels(image) && k >= 1 && k % 2 == 1
    requires r < |image| && c < Width(image)
    ensures var window := Flatten(SubGrid(ZeroPad(image, k / 2, k / 2), r, c, k, k));
      && |window| == k * k
      && MedianFilter(image, k)[r][c] in window
      && CountAtMost(window, MedianFilter(image, k)[r][c]) >= (k * k + 1) / 2
      && CountAtLeast(window, MedianFilter(image, k)[r][c]) >= (k * k + 1) / 2
      && SeqMin(window) <= MedianFilter(image, k)[r][c] <= SeqMax(window)
  {
    var w := SubGrid(ZeroPad(image, k / 2, k / 2), r, c, k, k);
    var window := Flatten(w);
    MedianFilterAt(image, k, r, c);
    FlattenLength(w, k, k);
    OddSquareIsOdd(k);
    MedianIsMiddleOrderStatistic(window);
    MedianIsBetweenMinAndMax(window);
  }

  lemma MedianFilterAt(image: Image, k: nat, r: nat, c: nat)
    requires NonEmpty(image) && Pixels(image) && k >= 1
    requires r < FilteredSize(|image|, k) && c < FilteredSize(Width(image), k)
    ensures MedianFilter(image, k)[r][c] == Median(Flatten(SubGrid(ZeroPad(image, k / 2, k / 2), r, c, k, k)))
  {
  }

  lemma OddSquareIsOdd(k: nat)
    requires k % 2 == 1
    ensures (k * k) % 2 == 1
  {
    var h := k / 2;
    assert k == 2 * h + 1;
    assert k * k == 2 * (2 * h * h + 2 * h) + 1;
  }

  /** A median of byte samples is a byte: the median filter keeps the range [0, 255]. */
  lemma MedianStaysInRange(image: Image, k: nat)
    requires NonEmpty(image) && Pixels(image) && k >= 1
    ensures Pixels(MedianFilter(image, k))
  {
    var out := MedianFilter(image, k);
    forall r, c | 0 <= r < |out| && 0 <= c < |out[r]| ensures 0 <= out[r][c] <= 255 {
      WindowMedianInRange(image, k, r, c);
    }
  }

  lemma WindowMedianInRange(image: Image, k: nat, r: nat, c: nat)
    requires NonEmpty(image) && Pixels(image) && k >= 1
    requires r < FilteredSize(|image|, k) && c < FilteredSize(Width(image), k)
    ensures 0 <= MedianFilter(image, k)[r][c] <= 255
  {
    var w := SubGrid(ZeroPad(image, k / 2, k / 2), r, c, k, k);
    PaddedWindowPixels(image, k / 2, r, c, k);
    var window := Flatten(w);
    FlattenLength(w, k, k);
    assert |window| >= 1 by { MulMonotone(k, 1, k); }
    FlattenBounds(w, 0, 255);
    MedianOfBoundedValues(window, 0, 255);
    assert MedianFilter(image, k)[r][c] == Median(window);
  }

  /** The median of values in [lo, hi] is in [lo, hi]. */
  lemma MedianOfBoundedValues(s: seq<int>, lo: int, hi: int)
    requires |s| >= 1 && forall j | 0 <= j < |s| :: lo <= s[j] <= hi
    ensures lo <= Median(s) <= hi
  {
    MedianIsBetweenMinAndMax(s);
    var a, b := SeqMin(s), SeqMax(s);
    assert a in s && b in s;
  }

  /** The Laplacian kernel: -1 everywhere except k*k - 1 at the centre (k/2, k/2).
      Its weights sum to zero. */
  function LaplacianKernel(k: nat): (kernel: Image)
    requires k >= 1
    ensures IsShape(kernel, k, k)
    ensures forall i, j | 0 <= i < k && 0 <= j < k ::
      kernel[i][j] == (if i == k / 2 && j == k / 2 then k * k - 1 else -1)
  {
    seq(k, i requires 0 <= i < k => seq(k, j requires 0 <= j < k =>
      if i == k / 2 && j == k / 2 then k * k - 1 else -1))
  }

  /** The Laplacian kernel's response to a k-by-k window is k^2 times the centre
      sample minus the window sum. */
  lemma LaplacianResponse(w: Image, k: nat)
    requires k >= 1 && IsShape(w, k, k)
    ensures Dot(w, LaplacianKernel(k)) == k * k * w[k / 2][k / 2] - GridSum(w)
  {
    var kernel := LaplacianKernel(k);
    var minusOnes := Constant(k, k, -1);
    var centre := seq(k, i requires 0 <= i < k => seq(k, j requires 0 <= j < k =>
      if i == k / 2 && j == k / 2 then k * k else 0));
    DotAdd(w, minusOnes, centre, kernel);
    DotConstantRight(w, minusOnes, -1);
    DotDelta(w, centre, k / 2, k / 2, k * k);
  }

  /** The Laplacian weights sum to zero, so a window of equal samples responds with 0. */
  lemma LaplacianOfFlatWindow(w: Image, k: nat, v: int)
    requires k >= 1 && IsShape(w, k, k) && IsConstant(w, v)
    ensures Dot(w, LaplacianKernel(k)) == 0
  {
    LaplacianResponse(w, k);
    GridSumConstant(w, k, k, v);
  }

  /** laplacian_filter before its uint8 cast: the absolute value of the Laplacian
      response of each zero-padded window, which is |k^2 * centre - window sum|,
      where the centre of the window at (r, c) is the input sample at (r, c)
      (0 past the edge, for even k). */
  function LaplacianFilter(image: Image, k: nat): (out: Image)
    requires NonEmpty(image) && Pixels(image) && k >= 1
    ensures IsShape(out, FilteredSize(|image|, k), FilteredSize(Width(image), k))
    ensures forall r, c | 0 <= r < |out| && 0 <= c < |out[r]| ::
      out[r][c] >= 0 &&
      out[r][c] == Abs(k * k * At(image, r, c) - WindowSum(ZeroPad(image, k / 2, k / 2), r, c, k))
  {
    var response := Utils.Convolve(ZeroPad(image, k / 2, k / 2), LaplacianKernel(k));
    LaplacianCells(image, k, response);
    seq(|response|, r requires 0 <= r < |response| =>
      seq(|response[r]|, c requires 0 <= c < |response[r]| => Abs(response[r][c])))
  }

  /** Each sample of the correlation with the Laplacian kernel, in closed form. */
  lemma LaplacianCells(image: Image, k: nat, response: Image)
    requires NonEmpty(image) && k >= 1
    requires response == Utils.Convolve(ZeroPad(image, k / 2, k / 2), LaplacianKernel(k))
    ensures IsShape(response, FilteredSize(|image|, k), FilteredSize(Width(image), k))
    ensures forall r, c | 0 <= r < |response| && 0 <= c < |response[r]| ::
      response[r][c] == k * k * At(image, r, c) - WindowSum(ZeroPad(image, k / 2, k / 2), r, c, k)
  {
    forall r, c | 0 <= r < |response| && 0 <= c < |response[r]|
      ensures response[r][c] == k * k * At(image, r, c) - WindowSum(ZeroPad(image, k / 2, k / 2), r, c, k)
    {
      LaplacianWindowResponse(image, k, r, c);
    }
  }

  lemma LaplacianWindowResponse(image: Image, k: nat, r: nat, c: nat)
    requires NonEmpty(image) && k >= 1
    requires r < FilteredSize(|image|, k) && c < FilteredSize(Width(image), k)
    ensures var padded := ZeroPad(image, k / 2, k / 2);
      Utils.Response(padded, LaplacianKernel(k), r, c) == k * k * At(image, r, c) - WindowSum(padded, r, c, k)
  {
    var p := k / 2;
    var padded := ZeroPad(image, p, p);
    var w := SubGrid(padded, r, c, k, k);
    LaplacianResponse(w, k);
    PaddedCentre(image, p, r, c);
    assert w[p][p] == padded[r + p][c + p];
  }

  /** The padded sample p rows and columns past (r, c) is image sample (r, c). */
  lemma PaddedCentre(image: Image, p: nat, r: nat, c: nat)
    requires Rect(image) && r + p < |image| + 2 * p && c + p < Width(image) + 2 * p
    ensures ZeroPad(image, p, p)[r + p][c + p] == At(image, r, c)
  {
  }

  function Abs(x: int): int {
    if x < 0 then -x else x
  }

  /** Where the zero-padded window around (r, c) is flat, the Laplacian filter gives 0. */
  lemma LaplacianOfFlatRegion(image: Image, k: nat, r: nat, c: nat, v: int)
    requires NonEmpty(image) && Pixels(image) && k >= 1
    requires r < FilteredSize(|image|, k) && c < FilteredSize(Width(image), k)
    requires IsConstant(SubGrid(ZeroPad(image, k / 2, k / 2), r, c, k, k), v)
    ensures LaplacianFilter(image, k)[r][c] == 0
  {
    FlatWindow(image, k, r, c, v);
    var out := LaplacianFilter(image, k);
    assert out[r][c] == Abs(k * k * At(image, r, c) - WindowSum(ZeroPad(image, k / 2, k / 2), r, c, k));
  }

  /** A flat window's centre is its value and its sum is k^2 times that value. */
  lemma FlatWindow(image: Image, k: nat, r: nat, c: nat, v: int)
    requires NonEmpty(image) && k >= 1
    requires r < FilteredSize(|image|, k) && c < FilteredSize(Width(image), k)
    requires IsConstant(SubGrid(ZeroPad(image, k / 2, k / 2), r, c, k, k), v)
    ensures At(image, r, c) == v && WindowSum(ZeroPad(image, k / 2, k / 2), r, c, k) == k * k * v
  {
    var p := k / 2;
    var padded := ZeroPad(image, p, p);
    var w := SubGrid(padded, r, c, k, k);
    PaddedCentre(image, p, r, c);
    assert w[p][p] == padded[r + p][c + p];
    GridSumConstant(w, k, k, v);
  }
}
