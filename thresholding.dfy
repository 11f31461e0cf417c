/** thresholding.py: simple, adaptive (local mean over a reflect-padded block)
    and Otsu binarisation of a single-channel image. Every thresholder maps a
    sample to 255 when it is above its threshold and to 0 otherwise. */
module Thresholding {
  import opened Grids

  /** 255 for samples strictly above the threshold, 0 for the rest. */
  function Binarize(p: int, threshold: int): int {
    if p > threshold then 255 else 0
  }

  // ---------------------------------------------------------------------------
  // Simple thresholding

  function SimpleThresholding(image: Image, threshold: int): (out: Image)
    requires Rect(image)
    ensures IsShape(out, |image|, Width(image)) && BinaryValued(out)
    ensures forall r, c | 0 <= r < |out| && 0 <= c < |out[r]| ::
      (out[r][c] == 255 <==> image[r][c] > threshold) && (out[r][c] == 0 <==> image[r][c] <= threshold)
  {
    seq(|image|, r requires 0 <= r < |image| =>
      seq(Width(image), c requires 0 <= c < Width(image) => Binarize(image[r][c], threshold)))
  }

  /** Raising the threshold can only shrink the foreground. */
  lemma SimpleThresholdingIsAntitone(image: Image, t: int, t': int)
    requires Rect(image) && t <= t'
    ensures forall r, c | 0 <= r < |image| && 0 <= c < Width(image) ::
      SimpleThresholding(image, t')[r][c] == 255 ==> SimpleThresholding(image, t)[r][c] == 255
  {
  }

  /** Thresholding an already binary image at any byte below 255 gives it back. */
  lemma SimpleThresholdingOfBinary(image: Image, t: int)
    requires Rect(image) && BinaryValued(image) && 0 <= t < 255
    ensures SimpleThresholding(image, t) == image
  {
    var out := SimpleThresholding(image, t);
    forall r | 0 <= r < |image| ensures out[r] == image[r] {
      forall c | 0 <= c < |image[r]| ensures out[r][c] == image[r][c] {
      }
    }
  }

  // ---------------------------------------------------------------------------
  // Adaptive thresholding

  /** An even block size is rounded up to the next odd one. */
  function BlockSize(b: nat): (n: nat)
    ensures n % 2 == 1 && b <= n <= b + 1
    ensures b % 2 == 1 ==> n == b
  {
    if b % 2 == 0 then b + 1 else b
  }

  /** The block-by-block window centred on (r, c) in the reflect-padded image. */
  function LocalBlock(image: Image, b: nat, r: nat, c: nat): (w: Image)
    requires NonEmpty(image) && r < |image| && c < Width(image)
    ensures var n := BlockSize(b); IsShape(w, n, n)
    ensures var n := BlockSize(b);
      forall i, j | 0 <= i < n && 0 <= j < n ::
        w[i][j] == image[Reflect(r + i - n / 2, |image|)][Reflect(c + j - n / 2, Width(image))]
  {
    var n := BlockSize(b);
    SubGrid(ReflectPad(image, n / 2), r, c, n, n)
  }

  /** The local mean, exactly as a rational number. */
  function LocalMean(image: Image, b: nat, r: nat, c: nat): real
    requires NonEmpty(image) && r < |image| && c < Width(image)
  {
    var n := BlockSize(b);
    GridSum(LocalBlock(image, b, r, c)) as real / (n * n) as real
  }

  /** A sample becomes 255 iff it exceeds its local mean minus C. Stated without
      division: p * b^2 > S - C * b^2, where S is the sum of the block. */
  function AdaptiveThresholding(image: Image, b: nat, C: int): (out: Image)
    requires NonEmpty(image) && Pixels(image)
    ensures IsShape(out, |image|, Width(image)) && BinaryValued(out)
    ensures var n := BlockSize(b);
      forall r, c | 0 <= r < |out| && 0 <= c < |out[r]| ::
        out[r][c] == (if image[r][c] * (n * n) > GridSum(LocalBlock(image, b, r, c)) - C * (n * n) then 255 else 0)
  {
    var out := seq(|image|, r requires 0 <= r < |image| =>
      seq(Width(image), c requires 0 <= c < Width(image) =>
        if image[r][c] as real > LocalMean(image, b, r, c) - C as real then 255 else 0));
    assert forall r, c | 0 <= r < |out| && 0 <= c < |out[r]| ::
      out[r][c] == (if image[r][c] * (BlockSize(b) * BlockSize(b)) > GridSum(LocalBlock(image, b, r, c)) - C * (BlockSize(b) * BlockSize(b)) then 255 else 0) by {
      forall r, c | 0 <= r < |out| && 0 <= c < |out[r]|
        ensures out[r][c] == (if image[r][c] * (BlockSize(b) * BlockSize(b)) > GridSum(LocalBlock(image, b, r, c)) - C * (BlockSize(b) * BlockSize(b)) then 255 else 0)
      {
        var n := BlockSize(b);
        MulMonotone1(n);
        MeanComparison(image[r][c], GridSum(LocalBlock(image, b, r, c)), C, n * n);
      }
    }
    out
  }

  lemma MulMonotone1(n: nat)
    requires n >= 1
    ensures n * n >= 1
  {
  }

  /** x > S/q - C over the rationals iff x*q > S - C*q over the integers. */
  lemma MeanComparison(x: int, s: int, C: int, q: int)
    requires q >= 1
    ensures (x as real > s as real / q as real - C as real) <==> (x * q > s - C * q)
  {
    var m := s as real / q as real;
    assert m * q as real == s as real;
    var d := x as real - (m - C as real);
    assert d * q as real == (x * q - (s - C * q)) as real;
    if d > 0.0 {
      assert d * q as real > 0.0;
    } else {
      assert d * q as real <= 0.0;
    }
  }

  /** On a constant image every block sums to b^2 times the value, so the whole
      image becomes 255 exactly when C is positive. */
  lemma AdaptiveOfConstant(image: Image, b: nat, C: int, v: int)
    requires NonEmpty(image) && Pixels(image) && IsConstant(image, v)
    ensures forall r, c | 0 <= r < |image| && 0 <= c < Width(image) ::
      AdaptiveThresholding(image, b, C)[r][c] == (if C > 0 then 255 else 0)
  {
    var n := BlockSize(b);
    forall r, c | 0 <= r < |image| && 0 <= c < Width(image)
      ensures AdaptiveThresholding(image, b, C)[r][c] == (if C > 0 then 255 else 0)
    {
      var w := LocalBlock(image, b, r, c);
      GridSumConstant(w, n, n, v);
      MulMonotone1(n);
      assert v * (n * n) == n * n * v;
      PositiveProduct(C, n * n);
    }
  }

  lemma PositiveProduct(x: int, q: int)
    requires q >= 1
    ensures x * q > 0 <==> x > 0
  {
    if x > 0 {
      MulAtLeast(x, q);
    } else if x < 0 {
      MulAtLeast(-x, q);
    }
  }

  // ---------------------------------------------------------------------------
  // Otsu binarisation

  /** The interval numpy's histogram spans: [min, max], widened to
      [v - 1/2, v + 1/2] when every sample equals v. */
  function HistogramLow(image: Image): real
    requires NonEmpty(image)
  {
    if GridMin(image) == GridMax(image) then GridMin(image) as real - 0.5 else GridMin(image) as real
  }

  function HistogramHigh(image: Image): real
    requires NonEmpty(image)
  {
    if GridMin(image) == GridMax(image) then GridMax(image) as real + 0.5 else GridMax(image) as real
  }

  /** The midpoint of bin t of the 256 equal bins over [lo, hi]. */
  function BinMid(lo: real, hi: real, t: nat): real {
    lo + (2 * t + 1) as real * (hi - lo) / 512.0
  }

  /** The threshold Otsu picks: the midpoint of histogram bin t, where t < 255 is
      the (first) index maximising the between-class variance. */
  function OtsuThreshold(image: Image, t: nat): (threshold: real)
    requires NonEmpty(image) && t < 255
    ensures GridMin(image) != GridMax(image) ==>
      GridMin(image) as real < threshold < GridMax(image) as real
  {
    var lo, hi := HistogramLow(image), HistogramHigh(image);
    BinMidInside(lo, hi, t);
    BinMid(lo, hi, t)
  }

  /** Every bin midpoint except the last lies strictly inside (lo, hi). */
  lemma BinMidInside(lo: real, hi: real, t: nat)
    requires lo < hi && t < 255
    ensures lo < BinMid(lo, hi, t) < hi
  {
    var d, k := hi - lo, (2 * t + 1) as real;
    assert 1.0 <= k <= 509.0;
    RealScale(1.0, k, d);
    RealScale(k, 509.0, d);
    var q := k * d;
    assert 1.0 * d == d;
    assert 0.0 < q / 512.0 < d;
    assert BinMid(lo, hi, t) == lo + q / 512.0;
  }

  lemma RealScale(a: real, b: real, d: real)
    requires a <= b && d > 0.0
    ensures a * d <= b * d
  {
    assert b * d - a * d == (b - a) * d;
  }

  function BinaryOtsu(image: Image, t: nat): (out: Image)
    requires NonEmpty(image) && Pixels(image) && t < 255
    ensures IsShape(out, |image|, Width(image)) && BinaryValued(out)
    ensures forall r, c | 0 <= r < |out| && 0 <= c < |out[r]| ::
      out[r][c] == 255 <==> image[r][c] as real > OtsuThreshold(image, t)
  {
    var threshold := OtsuThreshold(image, t);
    seq(|image|, r requires 0 <= r < |image| =>
      seq(Width(image), c requires 0 <= c < Width(image) =>
        if image[r][c] as real > threshold then 255 else 0))
  }

  /** On an image that is not constant the darkest samples become 0 and the
      brightest 255, whichever bin the variance search selects. */
  lemma OtsuSeparatesExtremes(image: Image, t: nat)
    requires NonEmpty(image) && Pixels(image) && t < 255 && GridMin(image) != GridMax(image)
    ensures forall r, c | 0 <= r < |image| && 0 <= c < Width(image) ::
      (image[r][c] == GridMin(image) ==> BinaryOtsu(image, t)[r][c] == 0) &&
      (image[r][c] == GridMax(image) ==> BinaryOtsu(image, t)[r][c] == 255)
  {
  }

  /** On integer samples, comparing with the real threshold is thresholding at its
      floor, so Otsu is simple thresholding at a computed level. */
  lemma OtsuIsSimpleThresholding(image: Image, t: nat)
    requires NonEmpty(image) && Pixels(image) && t < 255
    ensures BinaryOtsu(image, t) == SimpleThresholding(image, OtsuThreshold(image, t).Floor)
  {
    var out, ref := BinaryOtsu(image, t), SimpleThresholding(image, OtsuThreshold(image, t).Floor);
    var x := OtsuThreshold(image, t);
    forall r | 0 <= r < |image| ensures out[r] == ref[r] {
      forall c | 0 <= c < |image[r]| ensures out[r][c] == ref[r][c] {
        AboveIffAboveFloor(image[r][c], x);
      }
    }
  }

  lemma AboveIffAboveFloor(p: int, x: real)
    ensures p as real > x <==> p > x.Floor
  {
  }

  /** When every sample is equal the variance search yields no number and the
      first index, 0, is taken: the threshold sits just above v - 1/2 and the
      whole image becomes 255. */
  lemma OtsuOfConstant(image: Image, v: int)
    requires NonEmpty(image) && Pixels(image) && IsConstant(image, v)
    ensures forall r, c | 0 <= r < |image| && 0 <= c < Width(image) :: BinaryOtsu(image, 0)[r][c] == 255
  {
    var lo, hi := GridMin(image), GridMax(image);
    assert lo == v by {
      var r0, c0 :| 0 <= r0 < |image| && 0 <= c0 < |image[r0]| && image[r0][c0] == lo;
    }
    assert hi == v by {
      var r0, c0 :| 0 <= r0 < |image| && 0 <= c0 < |image[r0]| && image[r0][c0] == hi;
    }
    var threshold := OtsuThreshold(image, 0);
    assert threshold == v as real - 0.5 + 1.0 / 512.0;
    var out := BinaryOtsu(image, 0);
    forall r, c | 0 <= r < |image| && 0 <= c < Width(image) ensures out[r][c] == 255 {
      assert image[r][c] as real > threshold;
    }
  }
}
