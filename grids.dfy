/** Rectangular sample grids and the primitives every transform is built from:
    constant-zero and reflect padding, windows (sub-grids), sums and
    element-wise products of windows with kernels, minimum and maximum. */
module Grids {

  /** A 2-D grid, row-major: g[row][column]. */
  type Grid<T> = seq<seq<T>>

  /** A single-channel image, a kernel or a structuring element. */
  type Image = Grid<int>

  /** g has h rows of w samples each. */
  predicate IsShape<T>(g: Grid<T>, h: nat, w: nat) {
    |g| == h && forall r | 0 <= r < h :: |g[r]| == w
  }

  function Width<T>(g: Grid<T>): nat {
    if |g| == 0 then 0 else |g[0]|
  }

  /** All rows have the same length. */
  predicate Rect<T>(g: Grid<T>) {
    IsShape(g, |g|, Width(g))
  }

  /** Rectangular with at least one row and one column. */
  predicate NonEmpty<T>(g: Grid<T>) {
    Rect(g) && |g| >= 1 && Width(g) >= 1
  }

  predicate SameShape<S, T>(a: Grid<S>, b: Grid<T>) {
    |a| == |b| && forall r | 0 <= r < |a| :: |a[r]| == |b[r]|
  }

  /** Every sample fits in an unsigned byte. */
  predicate Pixels(g: Image) {
    forall r, c | 0 <= r < |g| && 0 <= c < |g[r]| :: 0 <= g[r][c] <= 255
  }

  /** Every sample is 0 or 255: a binary image as the thresholders and morphology produce it. */
  predicate BinaryValued(g: Image) {
    forall r, c | 0 <= r < |g| && 0 <= c < |g[r]| :: g[r][c] == 0 || g[r][c] == 255
  }

  predicate IsConstant(g: Image, v: int) {
    forall r, c | 0 <= r < |g| && 0 <= c < |g[r]| :: g[r][c] == v
  }

  /** The h-by-w grid whose every sample is v. */
  function Constant(h: nat, w: nat, v: int): (g: Image)
    ensures IsShape(g, h, w) && IsConstant(g, v)
  {
    seq(h, _ => seq(w, _ => v))
  }

  /** The sample at (r, c), and 0 anywhere outside the grid. */
  function At(g: Image, r: int, c: int): int {
    if 0 <= r < |g| && 0 <= c < |g[r]| then g[r][c] else 0
  }

  /** numpy.pad(g, ((ph, ph), (pw, pw)), mode='constant'): ph zero rows above and
      below, pw zero columns left and right. */
  function ZeroPad(g: Image, ph: nat, pw: nat): (p: Image)
    requires Rect(g)
    ensures IsShape(p, |g| + 2 * ph, Width(g) + 2 * pw)
    ensures forall r, c | 0 <= r < |p| && 0 <= c < |p[r]| :: p[r][c] == At(g, r - ph, c - pw)
    ensures forall r, c | 0 <= r < |g| && 0 <= c < Width(g) :: p[r + ph][c + pw] == g[r][c]
  {
    var p := seq(|g| + 2 * ph, r requires 0 <= r < |g| + 2 * ph =>
      seq(Width(g) + 2 * pw, c requires 0 <= c < Width(g) + 2 * pw => At(g, r - ph, c - pw)));
    assert forall r, c | 0 <= r < |g| && 0 <= c < Width(g) :: p[r + ph][c + pw] == At(g, r, c);
    p
  }

  /** The index that numpy's 'reflect' padding reads for position i of an axis of
      length n: mirrored about the first and the last sample without repeating
      them, repeatedly for pads wider than the axis; an axis of one sample is
      extended with that sample. */
  function Reflect(i: int, n: nat): (j: nat)
    requires n >= 1
    ensures j < n
  {
    if n == 1 then 0
    else
      var m := i % (2 * n - 2);
      if m < n then m else 2 * n - 2 - m
  }

  /** Inside the axis Reflect is the identity; the first position before it reads
      sample 1 and the first position after it reads sample n - 2. */
  lemma ReflectEdges(n: nat)
    requires n >= 2
    ensures forall i | 0 <= i < n :: Reflect(i, n) == i
    ensures Reflect(-1, n) == 1
    ensures Reflect(n, n) == n - 2
  {
    var p := 2 * n - 2;
    forall i | 0 <= i < n ensures Reflect(i, n) == i {
      if n == 2 && i == 1 {
        ModUnique(1, 0, 1, 2);
      } else {
        ModUnique(i, 0, i, p);
      }
    }
    ModUnique(-1, -1, p - 1, p);
    if n == 2 {
      ModUnique(2, 1, 0, 2);
    } else {
      ModUnique(n, 0, n, p);
    }
  }

  lemma ModOfNegation(i: int, p: int)
    requires p >= 1
    ensures (-i) % p == (if i % p == 0 then 0 else p - i % p)
  {
    var q, m := i / p, i % p;
    assert i == q * p + m;
    if m == 0 {
      assert -i == (-q) * p;
      ModOfMultiple(-q, p);
    } else {
      assert -i == (-q - 1) * p + (p - m);
      ModUnique(-i, -q - 1, p - m, p);
    }
  }

  lemma ModOfMultiple(q: int, p: int)
    requires p >= 1
    ensures (q * p) % p == 0
  {
    ModUnique(q * p, q, 0, p);
  }

  lemma ModUnique(x: int, q: int, m: int, p: int)
    requires p >= 1 && 0 <= m < p && x == q * p + m
    ensures x % p == m && x / p == q
  {
    var q', m' := x / p, x % p;
    assert x == q' * p + m';
    var d := q - q';
    assert d * p == m' - m;
    if d >= 1 {
      MulAtLeast(d, p);
    } else if d <= -1 {
      MulAtLeast(-d, p);
    }
  }

  lemma MulAtLeast(d: int, p: int)
    requires d >= 1 && p >= 1
    ensures d * p >= p
  {
    var e := d - 1;
    assert d * p == e * p + p;
    assert e * p >= 0;
  }

  lemma DivideIntoByteRange(s: int, d: int)
    requires d >= 1 && 0 <= s <= d * 255
    ensures 0 <= s / d <= 255
  {
    var q := s / d;
    assert s == d * q + s % d;
    if q > 255 {
      assert d * q >= d * 256 by { MulMonotone(d, 256, q); }
    }
  }

  lemma MulMonotone(d: int, a: int, b: int)
    requires d >= 0 && a <= b
    ensures d * a <= d * b
  {
    assert d * b - d * a == d * (b - a);
  }

  lemma DivideExactly(n: int, v: int)
    requires n >= 1
    ensures n * v / n == v
  {
    ModUnique(n * v, v, 0, n);
  }

  /** Reflect padding is symmetric about the first sample: position -i reads
      the same sample as position i. */
  lemma {:induction false} ReflectIsMirror(i: int, n: nat)
    requires n >= 1
    ensures Reflect(-i, n) == Reflect(i, n)
  {
    if n > 1 {
      ModOfNegation(i, 2 * n - 2);
    }
  }

  /** numpy.pad(g, p, mode='reflect'). */
  function ReflectPad(g: Image, p: nat): (q: Image)
    requires NonEmpty(g)
    ensures IsShape(q, |g| + 2 * p, Width(g) + 2 * p)
    ensures forall r, c | 0 <= r < |q| && 0 <= c < |q[r]| ::
      q[r][c] == g[Reflect(r - p, |g|)][Reflect(c - p, Width(g))]
  {
    seq(|g| + 2 * p, r requires 0 <= r < |g| + 2 * p =>
      seq(Width(g) + 2 * p, c requires 0 <= c < Width(g) + 2 * p =>
        g[Reflect(r - p, |g|)][Reflect(c - p, Width(g))]))
  }

  /** The h-by-w window of g whose top-left sample is (r0, c0). */
  function SubGrid(g: Image, r0: nat, c0: nat, h: nat, w: nat): (s: Image)
    requires Rect(g) && r0 + h <= |g| && c0 + w <= Width(g)
    ensures IsShape(s, h, w)
    ensures forall i, j | 0 <= i < h && 0 <= j < w :: s[i][j] == g[r0 + i][c0 + j]
  {
    seq(h, i requires 0 <= i < h => g[r0 + i][c0 .. c0 + w])
  }

  function RowSum(s: seq<int>): int {
    if s == [] then 0 else s[0] + RowSum(s[1..])
  }

  /** The sum of all samples. */
  function GridSum(g: Image): int {
    if g == [] then 0 else RowSum(g[0]) + GridSum(g[1..])
  }

  function RowDot(a: seq<int>, b: seq<int>): int
    requires |a| == |b|
  {
    if a == [] then 0 else a[0] * b[0] + RowDot(a[1..], b[1..])
  }

  /** The sum of the element-wise product of two grids of the same shape. */
  function Dot(a: Image, b: Image): int
    requires SameShape(a, b)
  {
    if a == [] then 0 else RowDot(a[0], b[0]) + Dot(a[1..], b[1..])
  }

  lemma {:induction false} RowSumConstant(s: seq<int>, v: int)
    requires forall j | 0 <= j < |s| :: s[j] == v
    ensures RowSum(s) == |s| * v
  {
    if s != [] {
      RowSumConstant(s[1..], v);
    }
  }

  /** A constant h-by-w grid sums to h * w times its value. */
  lemma {:induction false} GridSumConstant(g: Image, h: nat, w: nat, v: int)
    requires IsShape(g, h, w) && IsConstant(g, v)
    ensures GridSum(g) == h * w * v
  {
    if g != [] {
      RowSumConstant(g[0], v);
      GridSumConstant(g[1..], h - 1, w, v);
      assert h * w * v == w * v + (h - 1) * w * v;
    }
  }

  lemma {:induction false} RowSumBounds(s: seq<int>, lo: int, hi: int)
    requires forall j | 0 <= j < |s| :: lo <= s[j] <= hi
    ensures |s| * lo <= RowSum(s) <= |s| * hi
  {
    if s != [] {
      RowSumBounds(s[1..], lo, hi);
    }
  }

  /** The sum of h * w samples that all lie in [lo, hi] lies in [h*w*lo, h*w*hi]. */
  lemma {:induction false} GridSumBounds(g: Image, h: nat, w: nat, lo: int, hi: int)
    requires IsShape(g, h, w)
    requires forall r, c | 0 <= r < h && 0 <= c < w :: lo <= g[r][c] <= hi
    ensures h * w * lo <= GridSum(g) <= h * w * hi
  {
    if g != [] {
      var rest := g[1..];
      assert forall r, c | 0 <= r < h - 1 && 0 <= c < w :: lo <= rest[r][c] <= hi by {
        forall r, c | 0 <= r < h - 1 && 0 <= c < w ensures lo <= rest[r][c] <= hi {
          assert rest[r][c] == g[r + 1][c];
        }
      }
      RowSumBounds(g[0], lo, hi);
      GridSumBounds(rest, h - 1, w, lo, hi);
      SplitProduct(h, w, lo);
      SplitProduct(h, w, hi);
    }
  }

  lemma SplitProduct(h: nat, w: nat, v: int)
    requires h >= 1
    ensures h * w * v == w * v + (h - 1) * w * v
  {
  }

  lemma {:induction false} RowDotConstantLeft(a: seq<int>, b: seq<int>, v: int)
    requires |a| == |b| && forall j | 0 <= j < |a| :: a[j] == v
    ensures RowDot(a, b) == v * RowSum(b)
  {
    if a != [] {
      RowDotConstantLeft(a[1..], b[1..], v);
    }
  }

  /** Multiplying a constant window into a kernel gives the value times the kernel's sum. */
  lemma {:induction false} DotConstantLeft(a: Image, b: Image, v: int)
    requires SameShape(a, b) && IsConstant(a, v)
    ensures Dot(a, b) == v * GridSum(b)
  {
    if a != [] {
      RowDotConstantLeft(a[0], b[0], v);
      DotConstantLeft(a[1..], b[1..], v);
    }
  }

  lemma {:induction false} RowDotDelta(a: seq<int>, b: seq<int>, j0: nat, m: int)
    requires |a| == |b| && j0 < |a|
    requires forall j | 0 <= j < |b| :: b[j] == (if j == j0 then m else 0)
    ensures RowDot(a, b) == m * a[j0]
  {
    if j0 == 0 {
      RowDotConstantLeftZero(a[1..], b[1..]);
    } else {
      RowDotDelta(a[1..], b[1..], j0 - 1, m);
    }
  }

  lemma {:induction false} RowDotConstantLeftZero(a: seq<int>, b: seq<int>)
    requires |a| == |b| && forall j | 0 <= j < |b| :: b[j] == 0
    ensures RowDot(a, b) == 0
  {
    if a != [] {
      RowDotConstantLeftZero(a[1..], b[1..]);
    }
  }

  lemma {:induction false} DotZeroRight(a: Image, b: Image)
    requires SameShape(a, b) && IsConstant(b, 0)
    ensures Dot(a, b) == 0
  {
    if a != [] {
      RowDotConstantLeftZero(a[0], b[0]);
      DotZeroRight(a[1..], b[1..]);
    }
  }

  /** A kernel that is m at (i0, j0) and 0 elsewhere picks out m times that sample of the window. */
  lemma {:induction false} DotDelta(a: Image, b: Image, i0: nat, j0: nat, m: int)
    requires SameShape(a, b) && i0 < |a| && j0 < |a[i0]|
    requires forall i, j | 0 <= i < |b| && 0 <= j < |b[i]| :: b[i][j] == (if i == i0 && j == j0 then m else 0)
    ensures Dot(a, b) == m * a[i0][j0]
  {
    if i0 == 0 {
      RowDotDelta(a[0], b[0], j0, m);
      DotZeroRight(a[1..], b[1..]);
    } else {
      RowDotConstantLeftZero(a[0], b[0]);
      DotDelta(a[1..], b[1..], i0 - 1, j0, m);
    }
  }

  /** Dot is linear in the kernel: adding kernels adds responses. */
  lemma {:induction false} RowDotAdd(a: seq<int>, b: seq<int>, c: seq<int>, d: seq<int>)
    requires |a| == |b| == |c| == |d|
    requires forall j | 0 <= j < |d| :: d[j] == b[j] + c[j]
    ensures RowDot(a, d) == RowDot(a, b) + RowDot(a, c)
  {
    if a != [] {
      RowDotAdd(a[1..], b[1..], c[1..], d[1..]);
    }
  }

  lemma {:induction false} DotAdd(a: Image, b: Image, c: Image, d: Image)
    requires SameShape(a, b) && SameShape(a, c) && SameShape(a, d)
    requires forall i, j | 0 <= i < |d| && 0 <= j < |d[i]| :: d[i][j] == b[i][j] + c[i][j]
    ensures Dot(a, d) == Dot(a, b) + Dot(a, c)
  {
    if a != [] {
      RowDotAdd(a[0], b[0], c[0], d[0]);
      DotAdd(a[1..], b[1..], c[1..], d[1..]);
    }
  }

  lemma {:induction false} RowDotConstantRight(a: seq<int>, b: seq<int>, v: int)
    requires |a| == |b| && forall j | 0 <= j < |b| :: b[j] == v
    ensures RowDot(a, b) == v * RowSum(a)
  {
    if a != [] {
      RowDotConstantRight(a[1..], b[1..], v);
    }
  }

  /** A kernel whose every weight is v responds with v times the window sum. */
  lemma {:induction false} DotConstantRight(a: Image, b: Image, v: int)
    requires SameShape(a, b) && IsConstant(b, v)
    ensures Dot(a, b) == v * GridSum(a)
  {
    if a != [] {
      RowDotConstantRight(a[0], b[0], v);
      DotConstantRight(a[1..], b[1..], v);
    }
  }

  /** Dot only looks at the samples: grids that agree sample by sample give the same response. */
  lemma {:induction false} DotCongruent(a: Image, a': Image, b: Image)
    requires SameShape(a, b) && SameShape(a', b)
    requires forall i, j | 0 <= i < |a| && 0 <= j < |a[i]| :: a[i][j] == a'[i][j]
    ensures Dot(a, b) == Dot(a', b)
  {
    assert a == a' by {
      assert |a| == |a'|;
      forall i | 0 <= i < |a| ensures a[i] == a'[i] {
        assert |a[i]| == |a'[i]|;
      }
    }
  }

  function SeqMin(s: seq<int>): (m: int)
    requires |s| >= 1
    ensures m in s && forall j | 0 <= j < |s| :: m <= s[j]
  {
    if |s| == 1 then s[0]
    else
      var rest := SeqMin(s[1..]);
      if s[0] <= rest then s[0] else rest
  }

  function SeqMax(s: seq<int>): (m: int)
    requires |s| >= 1
    ensures m in s && forall j | 0 <= j < |s| :: s[j] <= m
  {
    if |s| == 1 then s[0]
    else
      var rest := SeqMax(s[1..]);
      if s[0] >= rest then s[0] else rest
  }

  /** The smallest sample of a non-empty grid (numpy's image.min()). */
  function GridMin(g: Image): (m: int)
    requires NonEmpty(g)
    ensures exists r, c | 0 <= r < |g| && 0 <= c < |g[r]| :: g[r][c] == m
    ensures forall r, c | 0 <= r < |g| && 0 <= c < |g[r]| :: m <= g[r][c]
  {
    var row := SeqMin(g[0]);
    if |g| == 1 then row
    else
      var rest := GridMin(g[1..]);
      assert forall r, c | 1 <= r < |g| && 0 <= c < |g[r]| :: rest <= g[r][c] by {
        forall r, c | 1 <= r < |g| && 0 <= c < |g[r]| ensures rest <= g[r][c] {
          assert g[r][c] == g[1..][r - 1][c];
        }
      }
      if row <= rest then row else rest
  }

  /** The largest sample of a non-empty grid (numpy's image.max()). */
  function GridMax(g: Image): (m: int)
    requires NonEmpty(g)
    ensures exists r, c | 0 <= r < |g| && 0 <= c < |g[r]| :: g[r][c] == m
    ensures forall r, c | 0 <= r < |g| && 0 <= c < |g[r]| :: g[r][c] <= m
  {
    var row := SeqMax(g[0]);
    if |g| == 1 then row
    else
      var rest := GridMax(g[1..]);
      assert forall r, c | 1 <= r < |g| && 0 <= c < |g[r]| :: g[r][c] <= rest by {
        forall r, c | 1 <= r < |g| && 0 <= c < |g[r]| ensures g[r][c] <= rest {
          assert g[r][c] == g[1..][r - 1][c];
        }
      }
      if row >= rest then row else rest
  }

  /** Row-major flattening of a window (numpy's reshape(-1, k*k)). */
  function Flatten(g: Image): (s: seq<int>)
    ensures forall x :: x in s <==> exists i | 0 <= i < |g| :: x in g[i]
  {
    if g == [] then [] else g[0] + Flatten(g[1..])
  }

  /** How many entries of s are at most v, and at least v. */
  function CountAtMost(s: seq<int>, v: int): nat {
    if s == [] then 0 else (if s[0] <= v then 1 else 0) + CountAtMost(s[1..], v)
  }

  function CountAtLeast(s: seq<int>, v: int): nat {
    if s == [] then 0 else (if s[0] >= v then 1 else 0) + CountAtLeast(s[1..], v)
  }

  lemma {:induction false} FlattenLength(g: Image, h: nat, w: nat)
    requires IsShape(g, h, w)
    ensures |Flatten(g)| == h * w
  {
    if g != [] {
      FlattenLength(g[1..], h - 1, w);
      SplitProduct(h, w, 1);
    }
  }

  lemma {:induction false} FlattenBounds(g: Image, lo: int, hi: int)
    requires forall i, j | 0 <= i < |g| && 0 <= j < |g[i]| :: lo <= g[i][j] <= hi
    ensures forall j | 0 <= j < |Flatten(g)| :: lo <= Flatten(g)[j] <= hi
  {
    if g != [] {
      FlattenBounds(g[1..], lo, hi);
      assert forall j | 0 <= j < |g[0]| :: lo <= g[0][j] <= hi;
    }
  }

  /** The grid of values an array currently holds, row by row. */
  function FromArray(a: array2<int>): (g: Image)
    reads a
    ensures IsShape(g, a.Length0, a.Length1)
    ensures forall i, j | 0 <= i < a.Length0 && 0 <= j < a.Length1 :: g[i][j] == a[i, j]
  {
    seq(a.Length0, i requires 0 <= i < a.Length0 reads a =>
      seq(a.Length1, j requires 0 <= j < a.Length1 reads a => a[i, j]))
  }
}
