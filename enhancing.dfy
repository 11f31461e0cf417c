/** enhancing.py: histogram equalisation of a single-channel byte image, both
    the per-tile lookup used by adaptive equalisation (hist_equalization, ahe)
    and the global min-max normalised cumulative histogram (histEqualization). */
module Enhancing {
  import opened Grids

  // ---------------------------------------------------------------------------
  // Histograms and cumulative counts

  /** How many entries of s equal v. */
  function Count(s: seq<int>, v: int): nat {
    if s == [] then 0 else (if s[0] == v then 1 else 0) + Count(s[1..], v)
  }

  /** bincount with 256 bins: bin v holds the number of samples equal to v. */
  function Histogram(s: seq<int>): (h: seq<nat>)
    ensures |h| == 256 && forall v | 0 <= v < 256 :: h[v] == Count(s, v)
  {
    seq(256, v requires 0 <= v < 256 => Count(s, v))
  }

  /** The sum of the first n bins. */
  function PrefixSum(h: seq<nat>, n: nat): nat
    requires n <= |h|
  {
    if n == 0 then 0 else PrefixSum(h, n - 1) + h[n - 1]
  }

  /** numpy's cumsum: entry v is the sum of bins 0 .. v. */
  function CumSum(h: seq<nat>): (cdf: seq<nat>)
    ensures |cdf| == |h|
    ensures |h| >= 1 ==> cdf[0] == h[0]
    ensures forall v | 1 <= v < |h| :: cdf[v] == cdf[v - 1] + h[v]
  {
    assert |h| >= 1 ==> PrefixSum(h, 1) == h[0];
    seq(|h|, v requires 0 <= v < |h| => PrefixSum(h, v + 1))
  }

  lemma {:induction false} CountAtMostStep(s: seq<int>, v: int)
    ensures CountAtMost(s, v) == CountAtMost(s, v - 1) + Count(s, v)
  {
    if s != [] {
      CountAtMostStep(s[1..], v);
    }
  }

  lemma {:induction false} CountBelowRange(s: seq<int>)
    requires forall j | 0 <= j < |s| :: 0 <= s[j]
    ensures CountAtMost(s, -1) == 0
  {
    if s != [] {
      CountBelowRange(s[1..]);
    }
  }

  /** The cumulative histogram of byte samples counts the samples at most v. */
  lemma {:induction false} CumulativeHistogram(s: seq<int>, v: nat)
    requires forall j | 0 <= j < |s| :: 0 <= s[j] <= 255
    requires v < 256
    ensures CumSum(Histogram(s))[v] == CountAtMost(s, v)
  {
    var cdf := CumSum(Histogram(s));
    CountAtMostStep(s, v);
    if v == 0 {
      CountBelowRange(s);
    } else {
      CumulativeHistogram(s, v - 1);
    }
  }

  /** The 256 bins of byte samples hold every sample once: their total, the
      divisor np.sum(bin_cont), is the number of samples. */
  lemma HistogramTotal(s: seq<int>)
    requires forall j | 0 <= j < |s| :: 0 <= s[j] <= 255
    ensures PrefixSum(Histogram(s), 256) == |s|
  {
    var h := Histogram(s);
    CumulativeHistogram(s, 255);
    assert CumSum(h)[255] == PrefixSum(h, 256);
    CountAtMostAll(s, 255);
  }

  lemma {:induction false} CountAtMostIsMonotone(s: seq<int>, u: int, v: int)
    requires u <= v
    ensures CountAtMost(s, u) <= CountAtMost(s, v)
  {
    if s != [] {
      CountAtMostIsMonotone(s[1..], u, v);
    }
  }

  lemma {:induction false} CountAtMostAll(s: seq<int>, v: int)
    requires forall j | 0 <= j < |s| :: s[j] <= v
    ensures CountAtMost(s, v) == |s|
  {
    if s != [] {
      CountAtMostAll(s[1..], v);
    }
  }

  lemma {:induction false} CountAtMostBounded(s: seq<int>, v: int)
    ensures CountAtMost(s, v) <= |s|
  {
    if s != [] {
      CountAtMostBounded(s[1..], v);
    }
  }

  /** Some sample above v leaves it out of the count. */
  lemma {:induction false} CountAtMostMissesLarger(s: seq<int>, v: int, j: nat)
    requires j < |s| && s[j] > v
    ensures CountAtMost(s, v) < |s|
  {
    CountAtMostBounded(s[1..], v);
    if j > 0 {
      CountAtMostMissesLarger(s[1..], v, j - 1);
    }
  }

  lemma DivIsMonotone(a: int, b: int, n: int)
    requires 0 <= a <= b && n >= 1
    ensures a / n <= b / n
  {
    var qa, qb := a / n, b / n;
    assert a == qa * n + a % n && b == qb * n + b % n;
    if qa > qb {
      MulAtLeast(qa - qb, n);
    }
  }

  // ---------------------------------------------------------------------------
  // hist_equalization: the per-tile lookup

  /** The lookup table floor(255 * cum(v) / N) over the 256 byte values, where N,
      the sum of the bins, is the number of samples (HistogramTotal); it is never
      consulted when there are no samples. */
  function EqualizationMap(s: seq<int>): (m: seq<int>)
    ensures |m| == 256
  {
    var cdf := CumSum(Histogram(s));
    seq(256, v requires 0 <= v < 256 => if |s| == 0 then 0 else 255 * cdf[v] / |s|)
  }

  /** Each sample v becomes floor(255 * cum(v) / N), cum(v) being the number of
      samples of the image that are at most v and N the number of samples. */
  function HistEqualization(image: Image): (out: Image)
    requires Rect(image) && Pixels(image)
    ensures IsShape(out, |image|, Width(image))
    ensures forall r, c | 0 <= r < |out| && 0 <= c < |out[r]| ::
      out[r][c] == 255 * CountAtMost(Flatten(image), image[r][c]) / |Flatten(image)|
  {
    var s := Flatten(image);
    var m := EqualizationMap(s);
    var out := seq(|image|, r requires 0 <= r < |image| =>
      seq(Width(image), c requires 0 <= c < Width(image) => m[image[r][c]]));
    assert forall r, c | 0 <= r < |out| && 0 <= c < |out[r]| ::
      out[r][c] == 255 * CountAtMost(s, image[r][c]) / |s| by {
      forall r, c | 0 <= r < |out| && 0 <= c < |out[r]|
        ensures out[r][c] == 255 * CountAtMost(s, image[r][c]) / |s|
      {
        FlattenBounds(image, 0, 255);
        CumulativeHistogram(s, image[r][c]);
        assert image[r][c] in s;
      }
    }
    out
  }

  /** The lookup is non-decreasing, so equalisation keeps the order of samples. */
  lemma HistEqualizationIsMonotone(image: Image, r: nat, c: nat, r': nat, c': nat)
    requires Rect(image) && Pixels(image)
    requires r < |image| && c < Width(image) && r' < |image| && c' < Width(image)
    requires image[r][c] <= image[r'][c']
    ensures HistEqualization(image)[r][c] <= HistEqualization(image)[r'][c']
  {
    var s := Flatten(image);
    CountAtMostIsMonotone(s, image[r][c], image[r'][c']);
    assert image[r][c] in s;
    MulMonotone(255, CountAtMost(s, image[r][c]), CountAtMost(s, image[r'][c']));
    DivIsMonotone(255 * CountAtMost(s, image[r][c]), 255 * CountAtMost(s, image[r'][c']), |s|);
  }

  /** Equalised samples are bytes, and the brightest sample becomes 255. */
  lemma HistEqualizationRange(image: Image)
    requires Rect(image) && Pixels(image)
    ensures Pixels(HistEqualization(image))
    ensures NonEmpty(image) ==> forall r, c | 0 <= r < |image| && 0 <= c < Width(image) ::
      image[r][c] == GridMax(image) ==> HistEqualization(image)[r][c] == 255
  {
    var s := Flatten(image);
    var out := HistEqualization(image);
    forall r, c | 0 <= r < |out| && 0 <= c < |out[r]| ensures 0 <= out[r][c] <= 255 {
      assert image[r][c] in s;
      CountAtMostBounded(s, image[r][c]);
      MulMonotone(255, CountAtMost(s, image[r][c]), |s|);
      DivideIntoByteRange(255 * CountAtMost(s, image[r][c]), |s|);
    }
    if NonEmpty(image) {
      var hi := GridMax(image);
      FlattenBounds(image, GridMin(image), hi);
      CountAtMostAll(s, hi);
      assert image[0][0] in s;
      DivideExactly(|s|, 255);
      assert 255 * |s| == |s| * 255;
    }
  }

  // ---------------------------------------------------------------------------
  // ahe: tile-by-tile equalisation

  /** The tile whose top-left corner is (r0, c0): ry rows by rx columns,
      clipped at the bottom and right borders. */
  function Tile(image: Image, r0: nat, c0: nat, ry: nat, rx: nat): (t: Image)
    requires Rect(image) && r0 < |image| && c0 < Width(image)
    ensures IsShape(t, Min(ry, |image| - r0), Min(rx, Width(image) - c0))
    ensures forall i, j | 0 <= i < |t| && 0 <= j < |t[i]| :: t[i][j] == image[r0 + i][c0 + j]
  {
    SubGrid(image, r0, c0, Min(ry, |image| - r0), Min(rx, Width(image) - c0))
  }

  function Min(a: int, b: int): int {
    if a <= b then a else b
  }

  /** The tile origin of a coordinate: the largest multiple of the step not above it. */
  function Origin(x: nat, step: nat): (o: nat)
    requires step >= 1
    ensures o % step == 0 && o <= x < o + step
  {
    ModOfMultiple(x / step, step);
    x / step * step
  }

  lemma OriginOfTile(x: nat, o: nat, step: nat)
    requires step >= 1 && o % step == 0 && o <= x < o + step
    ensures Origin(x, step) == o
  {
    ModUnique(o, o / step, 0, step);
    ModUnique(x, o / step, x - o, step);
  }

  /** What ahe computes: sample (r, c) is the equalisation of its own tile, read
      at its offset inside that tile. */
  function AheImage(image: Image, rx: nat, ry: nat): (out: Image)
    requires Rect(image) && Pixels(image) && rx >= 1 && ry >= 1
    ensures IsShape(out, |image|, Width(image))
  {
    seq(|image|, r requires 0 <= r < |image| =>
      seq(Width(image), c requires 0 <= c < Width(image) =>
        AheAt(image, rx, ry, r, c)))
  }

  function AheAt(image: Image, rx: nat, ry: nat, r: nat, c: nat): int
    requires Rect(image) && Pixels(image) && rx >= 1 && ry >= 1
    requires r < |image| && c < Width(image)
  {
    var r0, c0 := Origin(r, ry), Origin(c, rx);
    HistEqualization(Tile(image, r0, c0, ry, rx))[r - r0][c - c0]
  }

  /** Allocates the output and fills it tile by tile: columns advance by rx in the
      outer loop, rows by ry in the inner one; every sample is written once. */
  method Ahe(image: Image, rx: nat, ry: nat) returns (out: Image)
    requires Rect(image) && Pixels(image) && rx >= 1 && ry >= 1
    ensures out == AheImage(image, rx, ry)
  {
    var h, w := |image|, Width(image);
    var eq := new int[h, w];
    var i := 0;
    while i < w
      invariant i % rx == 0
      invariant forall y, x | 0 <= y < h && 0 <= x < w && x < i :: eq[y, x] == AheAt(image, rx, ry, y, x)
    {
      EqualizeStrip(eq, image, rx, ry, i);
      ModOfMultiple(i / rx + 1, rx);
      assert i + rx == (i / rx + 1) * rx;
      i := i + rx;
    }
    out := FromArray(eq);
    ghost var spec := AheImage(image, rx, ry);
    forall r | 0 <= r < h ensures out[r] == spec[r] {
      assert forall c | 0 <= c < w :: out[r][c] == spec[r][c];
    }
  }

  /** The inner loop for the strip of columns i .. i+rx-1: its tiles are
      equalised top to bottom and written into eq; other columns are kept. */
  method EqualizeStrip(eq: array2<int>, image: Image, rx: nat, ry: nat, i: nat)
    requires Rect(image) && Pixels(image) && rx >= 1 && ry >= 1
    requires eq.Length0 == |image| && eq.Length1 == Width(image)
    requires i < Width(image) && i % rx == 0
    modifies eq
    ensures forall y, x | 0 <= y < eq.Length0 && 0 <= x < eq.Length1 ::
      eq[y, x] == if i <= x < i + rx then AheAt(image, rx, ry, y, x) else old(eq[y, x])
  {
    var h, w := |image|, Width(image);
    var j := 0;
    while j < h
      invariant j % ry == 0
      invariant forall y, x | 0 <= y < h && 0 <= x < w ::
        eq[y, x] == if y < j && i <= x < i + rx then AheAt(image, rx, ry, y, x) else old(eq[y, x])
    {
      EqualizeTile(eq, image, rx, ry, j, i);
      ModOfMultiple(j / ry + 1, ry);
      assert j + ry == (j / ry + 1) * ry;
      j := j + ry;
    }
  }

  /** Equalises the tile whose top-left corner is (j, i) and writes it into eq;
      every other sample is kept. */
  method EqualizeTile(eq: array2<int>, image: Image, rx: nat, ry: nat, j: nat, i: nat)
    requires Rect(image) && Pixels(image) && rx >= 1 && ry >= 1
    requires eq.Length0 == |image| && eq.Length1 == Width(image)
    requires j < |image| && i < Width(image) && j % ry == 0 && i % rx == 0
    modifies eq
    ensures forall y, x | 0 <= y < eq.Length0 && 0 <= x < eq.Length1 ::
      eq[y, x] == if j <= y < j + ry && i <= x < i + rx then AheAt(image, rx, ry, y, x) else old(eq[y, x])
  {
    var h, w := |image|, Width(image);
    var equalized := HistEqualization(Tile(image, j, i, ry, rx));
    forall y, x | j <= y < h && y < j + ry && i <= x < w && x < i + rx {
      eq[y, x] := equalized[y - j][x - i];
    }
    TileWritten(image, rx, ry, j, i);
  }

  /** The values written for the tile at (j, i) are the ones AheAt specifies. */
  lemma TileWritten(image: Image, rx: nat, ry: nat, j: nat, i: nat)
    requires Rect(image) && Pixels(image) && rx >= 1 && ry >= 1
    requires j < |image| && i < Width(image) && j % ry == 0 && i % rx == 0
    ensures forall y, x | j <= y < |image| && y < j + ry && i <= x < Width(image) && x < i + rx ::
      HistEqualization(Tile(image, j, i, ry, rx))[y - j][x - i] == AheAt(image, rx, ry, y, x)
  {
    forall y, x | j <= y < |image| && y < j + ry && i <= x < Width(image) && x < i + rx
      ensures HistEqualization(Tile(image, j, i, ry, rx))[y - j][x - i] == AheAt(image, rx, ry, y, x)
    {
      TileCellWritten(image, rx, ry, j, i, y, x);
    }
  }

  lemma TileCellWritten(image: Image, rx: nat, ry: nat, j: nat, i: nat, y: nat, x: nat)
    requires Rect(image) && Pixels(image) && rx >= 1 && ry >= 1
    requires j % ry == 0 && i % rx == 0
    requires j <= y < |image| && y < j + ry && i <= x < Width(image) && x < i + rx
    ensures HistEqualization(Tile(image, j, i, ry, rx))[y - j][x - i] == AheAt(image, rx, ry, y, x)
  {
    OriginOfTile(y, j, ry);
    OriginOfTile(x, i, rx);
  }

  /** ahe's output is a byte image. */
  lemma AheRange(image: Image, rx: nat, ry: nat)
    requires Rect(image) && Pixels(image) && rx >= 1 && ry >= 1
    ensures Pixels(AheImage(image, rx, ry))
  {
    var out := AheImage(image, rx, ry);
    forall r, c | 0 <= r < |out| && 0 <= c < |out[r]| ensures 0 <= out[r][c] <= 255 {
      var t := Tile(image, Origin(r, ry), Origin(c, rx), ry, rx);
      HistEqualizationRange(t);
    }
  }

  /** Each tile is equalised on its own: two images that agree on the tile
      holding (r, c) give the same output there, whatever the other tiles hold. */
  lemma AheIsTileLocal(image: Image, image': Image, rx: nat, ry: nat, r: nat, c: nat)
    requires Rect(image) && Pixels(image) && Rect(image') && Pixels(image') && rx >= 1 && ry >= 1
    requires |image'| == |image| && Width(image') == Width(image)
    requires r < |image| && c < Width(image)
    requires forall y, x | 0 <= y < |image| && 0 <= x < Width(image) ::
      Origin(y, ry) == Origin(r, ry) && Origin(x, rx) == Origin(c, rx) ==> image[y][x] == image'[y][x]
    ensures AheImage(image, rx, ry)[r][c] == AheImage(image', rx, ry)[r][c]
  {
    var r0, c0 := Origin(r, ry), Origin(c, rx);
    var t, t' := Tile(image, r0, c0, ry, rx), Tile(image', r0, c0, ry, rx);
    forall i | 0 <= i < |t| ensures t[i] == t'[i] {
      forall j | 0 <= j < |t[i]| ensures t[i][j] == t'[i][j] {
        OriginOfTile(r0 + i, r0, ry);
        OriginOfTile(c0 + j, c0, rx);
      }
    }
    assert t == t';
  }

  /** With tiles at least as large as the image, ahe is plain equalisation. */
  lemma AheOfOneTile(image: Image, rx: nat, ry: nat)
    requires Rect(image) && Pixels(image) && rx >= Width(image) && ry >= |image| && rx >= 1 && ry >= 1
    ensures AheImage(image, rx, ry) == HistEqualization(image)
  {
    var out, ref := AheImage(image, rx, ry), HistEqualization(image);
    if |image| > 0 && Width(image) > 0 {
      var t := Tile(image, 0, 0, ry, rx);
      assert t == image by {
        forall i | 0 <= i < |t| ensures t[i] == image[i] {
        }
      }
      forall r | 0 <= r < |out| ensures out[r] == ref[r] {
        forall c | 0 <= c < |out[r]| ensures out[r][c] == ref[r][c] {
          OriginOfTile(r, 0, ry);
          OriginOfTile(c, 0, rx);
        }
      }
    }
  }

  // ---------------------------------------------------------------------------
  // histEqualization: the global min-max normalised cumulative histogram

  /** numpy's histogram with 256 bins over [0, 255] has bins 255/256 wide, the
      last one closed: a byte v falls in bin floor(256 v / 255), clipped to the
      last bin, 255. That bin is v itself, so the histogram is the bincount. */
  lemma GlobalBinIsValue(v: int)
    requires 0 <= v <= 255
    ensures Min(v * 256 / 255, 255) == v
  {
    if v < 255 {
      ModUnique(v * 256, v, v, 255);
    } else {
      ModUnique(v * 256, 256, 0, 255);
    }
  }

  /** The image contains a sample other than 0, so the cumulative histogram is
      not flat and the normalisation divides by a positive number. */
  predicate HasNonZero(image: Image) {
    exists r, c | 0 <= r < |image| && 0 <= c < |image[r]| :: image[r][c] != 0
  }

  /** The least and greatest entries of the cumulative histogram of byte
      samples are its first entry (the number of zero samples) and the number
      of samples. */
  lemma CdfExtremes(s: seq<int>)
    requires forall j | 0 <= j < |s| :: 0 <= s[j] <= 255
    ensures var cdf := CumSum(Histogram(s));
      SeqMin(cdf) == CountAtMost(s, 0) && SeqMax(cdf) == |s|
  {
    var cdf := CumSum(Histogram(s));
    forall v | 0 <= v < 256 ensures CountAtMost(s, 0) <= cdf[v] <= |s| {
      CumulativeHistogram(s, v);
      CountAtMostIsMonotone(s, 0, v);
      CountAtMostBounded(s, v);
    }
    CumulativeHistogram(s, 0);
    CumulativeHistogram(s, 255);
    CountAtMostAll(s, 255);
  }

  lemma CdfIsNotFlat(image: Image)
    requires Rect(image) && Pixels(image) && HasNonZero(image)
    ensures CountAtMost(Flatten(image), 0) < |Flatten(image)|
  {
    var s := Flatten(image);
    var r, c :| 0 <= r < |image| && 0 <= c < |image[r]| && image[r][c] != 0;
    assert image[r][c] in s;
    var j :| 0 <= j < |s| && s[j] == image[r][c];
    CountAtMostMissesLarger(s, 0, j);
  }

  /** The normalised level of a sample with cum = a, where z samples are 0 and
      n samples in all: (a - z) * 255 / (n - z). */
  function Level(z: int, n: int, a: int): real
    requires z < n
  {
    ((a - z) * 255) as real / (n - z) as real
  }

  /** Levels run from 0 (at cum = z) to 255 (at cum = n) without decreasing. */
  lemma LevelIsMonotone(z: int, n: int, a: int, b: int)
    requires z <= a <= b <= n && z < n
    ensures 0.0 <= Level(z, n, a) <= Level(z, n, b) <= 255.0
    ensures Level(z, n, z) == 0.0 && Level(z, n, n) == 255.0
  {
    var d := (n - z) as real;
    RealDivMonotone(0.0, ((a - z) * 255) as real, d);
    RealDivMonotone(((a - z) * 255) as real, ((b - z) * 255) as real, d);
    RealDivMonotone(((b - z) * 255) as real, ((n - z) * 255) as real, d);
    assert ((n - z) * 255) as real == 255.0 * d;
    ScaledQuotient(255.0, d);
    assert Level(z, n, z) == 0.0 / d;
  }

  lemma ScaledQuotient(a: real, d: real)
    requires d > 0.0
    ensures (a * d) / d == a
  {
  }

  lemma RealDivMonotone(x: real, y: real, d: real)
    requires x <= y && d > 0.0
    ensures x / d <= y / d
  {
    assert y / d - x / d == (y - x) / d;
  }

  /** The remapping table, indexed by byte value: entry v is
      (cdf[v] - min cdf) * 255 / (max cdf - min cdf). It is Level(zeros, N, cum(v)),
      where zeros is the number of samples equal to 0 and N the number of samples.
      The table is built from Histogram, the bincount, because each byte lands in
      the bin of its own value (GlobalBinIsValue). */
  function GlobalMap(s: seq<int>): (m: seq<real>)
    requires forall j | 0 <= j < |s| :: 0 <= s[j] <= 255
    requires CountAtMost(s, 0) < |s|
    ensures |m| == 256
    ensures forall v | 0 <= v < 256 :: m[v] == Level(CountAtMost(s, 0), |s|, CountAtMost(s, v))
  {
    var cdf := CumSum(Histogram(s));
    CdfExtremes(s);
    var lo, hi := SeqMin(cdf), SeqMax(cdf);
    var m := seq(256, v requires 0 <= v < 256 => Level(lo, hi, cdf[v]));
    assert forall v | 0 <= v < 256 :: m[v] == Level(CountAtMost(s, 0), |s|, CountAtMost(s, v)) by {
      forall v | 0 <= v < 256 ensures m[v] == Level(CountAtMost(s, 0), |s|, CountAtMost(s, v)) {
        CumulativeHistogram(s, v);
      }
    }
    m
  }

  /** Each sample v becomes GlobalMap[v], unrounded. */
  function GlobalHistEqualization(image: Image): (out: seq<seq<real>>)
    requires Rect(image) && Pixels(image) && HasNonZero(image)
    ensures |out| == |image| && forall r | 0 <= r < |out| :: |out[r]| == Width(image)
    ensures var s := Flatten(image);
      CountAtMost(s, 0) < |s| &&
      forall r, c | 0 <= r < |out| && 0 <= c < |out[r]| ::
        out[r][c] == Level(CountAtMost(s, 0), |s|, CountAtMost(s, image[r][c]))
  {
    var s := Flatten(image);
    FlattenBounds(image, 0, 255);
    CdfIsNotFlat(image);
    var m := GlobalMap(s);
    seq(|image|, r requires 0 <= r < |image| =>
      seq(Width(image), c requires 0 <= c < Width(image) => m[image[r][c]]))
  }

  /** Global equalisation sends 0 to 0 and the brightest sample to 255. */
  lemma GlobalHistEqualizationExtremes(image: Image, r: nat, c: nat)
    requires NonEmpty(image) && Pixels(image) && HasNonZero(image)
    requires r < |image| && c < Width(image)
    ensures image[r][c] == 0 ==> GlobalHistEqualization(image)[r][c] == 0.0
    ensures image[r][c] == GridMax(image) ==> GlobalHistEqualization(image)[r][c] == 255.0
  {
    var s := Flatten(image);
    var out := GlobalHistEqualization(image);
    var z, n := CountAtMost(s, 0), |s|;
    FlattenBounds(image, GridMin(image), GridMax(image));
    CountAtMostAll(s, GridMax(image));
    LevelIsMonotone(z, n, z, z);
  }

  /** Global equalisation keeps every value in [0, 255] and the order of samples. */
  lemma GlobalHistEqualizationIsMonotone(image: Image, r: nat, c: nat, r': nat, c': nat)
    requires Rect(image) && Pixels(image) && HasNonZero(image)
    requires r < |image| && c < Width(image) && r' < |image| && c' < Width(image)
    requires image[r][c] <= image[r'][c']
    ensures 0.0 <= GlobalHistEqualization(image)[r][c] <= GlobalHistEqualization(image)[r'][c'] <= 255.0
  {
    var s := Flatten(image);
    var out := GlobalHistEqualization(image);
    FlattenBounds(image, 0, 255);
    assert image[r][c] in s;
    CountAtMostIsMonotone(s, 0, image[r][c]);
    CountAtMostIsMonotone(s, image[r][c], image[r'][c']);
    CountAtMostBounded(s, image[r'][c']);
    LevelIsMonotone(CountAtMost(s, 0), |s|, CountAtMost(s, image[r][c]), CountAtMost(s, image[r'][c']));
  }
}
