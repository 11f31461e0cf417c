/** utils.convolve: valid-mode 2-D correlation of a single-channel image with a
    kernel (the kernel is applied as it is, not flipped). */
module Utils {
  import opened Grids

  /** The kh-by-kw window at (r, c) of image, multiplied element-wise into kernel
      and summed. */
  function Response(image: Image, kernel: Image, r: nat, c: nat): int
    requires Rect(image) && Rect(kernel)
    requires r + |kernel| <= |image| && c + Width(kernel) <= Width(image)
  {
    Dot(SubGrid(image, r, c, |kernel|, Width(kernel)), kernel)
  }

  /** Output sample (r, c) is the response of the window whose top-left corner is
      (r, c); there is one output sample per position at which the kernel fits
      entirely inside the image. The closing uint8 cast is not modelled. */
  function Convolve(image: Image, kernel: Image): (out: Image)
    requires Rect(image) && Rect(kernel)
    requires |kernel| <= |image| && Width(kernel) <= Width(image)
    ensures IsShape(out, |image| - |kernel| + 1, Width(image) - Width(kernel) + 1)
    ensures forall r, c | 0 <= r < |out| && 0 <= c < |out[r]| :: out[r][c] == Response(image, kernel, r, c)
  {
    seq(|image| - |kernel| + 1, r requires 0 <= r < |image| - |kernel| + 1 =>
      seq(Width(image) - Width(kernel) + 1, c requires 0 <= c < Width(image) - Width(kernel) + 1 =>
        Response(image, kernel, r, c)))
  }

  /** Correlation, not convolution: a kernel holding m at (a, b) and 0 elsewhere
      yields m times the image sample at offset (+a, +b) from the output position
      (a flipped kernel would read offset (kh-1-a, kw-1-b) instead). */
  lemma ConvolveIsCorrelation(image: Image, kernel: Image, a: nat, b: nat, m: int)
    requires Rect(image) && Rect(kernel)
    requires |kernel| <= |image| && Width(kernel) <= Width(image)
    requires a < |kernel| && b < Width(kernel)
    requires forall i, j | 0 <= i < |kernel| && 0 <= j < |kernel[i]| ::
      kernel[i][j] == (if i == a && j == b then m else 0)
    ensures forall r, c | 0 <= r <= |image| - |kernel| && 0 <= c <= Width(image) - Width(kernel) ::
      Convolve(image, kernel)[r][c] == m * image[r + a][c + b]
  {
    var out := Convolve(image, kernel);
    forall r, c | 0 <= r <= |image| - |kernel| && 0 <= c <= Width(image) - Width(kernel)
      ensures out[r][c] == m * image[r + a][c + b]
    {
      var w := SubGrid(image, r, c, |kernel|, Width(kernel));
      DotDelta(w, kernel, a, b, m);
    }
  }

  /** Output sample (r, c) depends only on image rows r .. r+kh-1 and columns
      c .. c+kw-1: two images that agree there give the same sample. */
  lemma ConvolveIsLocal(image: Image, image': Image, kernel: Image, r: nat, c: nat)
    requires Rect(image) && Rect(image') && Rect(kernel)
    requires |image| == |image'| && Width(image) == Width(image')
    requires |kernel| <= |image| && Width(kernel) <= Width(image)
    requires r <= |image| - |kernel| && c <= Width(image) - Width(kernel)
    requires forall i, j | r <= i < r + |kernel| && c <= j < c + Width(kernel) :: image[i][j] == image'[i][j]
    ensures Convolve(image, kernel)[r][c] == Convolve(image', kernel)[r][c]
  {
    var kh, kw := |kernel|, Width(kernel);
    var w, w' := SubGrid(image, r, c, kh, kw), SubGrid(image', r, c, kh, kw);
    DotCongruent(w, w', kernel);
  }

  /** A constant image convolves to the constant times the kernel's sum. */
  lemma ConvolveConstant(image: Image, kernel: Image, v: int)
    requires Rect(image) && Rect(kernel) && IsConstant(image, v)
    requires |kernel| <= |image| && Width(kernel) <= Width(image)
    ensures forall r, c | 0 <= r <= |image| - |kernel| && 0 <= c <= Width(image) - Width(kernel) ::
      Convolve(image, kernel)[r][c] == v * GridSum(kernel)
  {
    var out := Convolve(image, kernel);
    forall r, c | 0 <= r <= |image| - |kernel| && 0 <= c <= Width(image) - Width(kernel)
      ensures out[r][c] == v * GridSum(kernel)
    {
      var w := SubGrid(image, r, c, |kernel|, Width(kernel));
      DotConstantLeft(w, kernel, v);
    }
  }

  /** The 3-by-3 discrete Laplacian that the Laplacian-of-Gaussian pass convolves with. */
  const LAPLACIAN_3: Image := [[0, 1, 0], [1, -4, 1], [0, 1, 0]]

  /** The Laplacian kernel sums to zero, so a constant image convolves to all zeros. */
  lemma LaplacianOfConstantIsZero(image: Image, v: int)
    requires Rect(image) && IsConstant(image, v) && |image| >= 3 && Width(image) >= 3
    ensures forall r, c | 0 <= r <= |image| - 3 && 0 <= c <= Width(image) - 3 ::
      Convolve(image, LAPLACIAN_3)[r][c] == 0
  {
    assert GridSum(LAPLACIAN_3) == 0;
    ConvolveConstant(image, LAPLACIAN_3, v);
  }
}
