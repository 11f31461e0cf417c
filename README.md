# Image-processing application: a verified model of the pixel-grid core

This project models the integer pixel logic of a desktop image-processing
application, and the small session state of its main window.

- **Structuring elements.** The application builds square, circle, ellipse,
  diamond, cross, T and slant masks. A case-insensitive dispatcher picks one
  by name, and the polygon's argument checks are included.
- **Binary morphology.** Erosion, dilation, opening and closing work on an
  image binarised at > 127.
- **Thresholding.** There are three thresholders: simple, adaptive local
  mean and Otsu.
- **Spatial filters.** The averaging, median and Laplacian filters each
  slide a window over a zero-padded copy of the image.
- **Histogram equalisation.** The per-tile lookup `floor(255 * cum(v) / N)`
  is used by the tile-by-tile `ahe`. The global remap is
  `(cdf[v] - cdf[0]) * 255 / (N - cdf[0])`.
- **Convolution.** The helper `convolve` is a valid-mode correlation.
- **Transforms.** The window applies brightness, rotation and mirroring
  itself. The three module globals hold the original, current and to-be-saved
  image.

Every image is a single-channel, rectangular `seq<seq<int>>`. A byte image
has every sample in 0..255. Integer arithmetic is exact and unbounded.
Floating-point steps are modelled in exact arithmetic where that is what the
code evidently computes, and the places where that choice matters are listed
below.

## Modules

- `Wrappers`: `Option` and `Result`, and the error values the source raises.
- `Grids`: the shared grid layer. It covers shapes, zero and reflect padding,
  sub-windows, sums and dot products, minimum and maximum, flattening and
  counting.
- `Utils`: `convolve`.
- `Filtering`, `Thresholding`, `Enhancing` and `Morphology`: one module per
  library file.
- `App`: the window's own transforms.
  - The menu functions are a datatype `Op`, with a `Step` function giving
    each one's effect.
  - The three globals form the class `Session`. Its methods `SelectImage`,
    `Perform` and `Save` update the fields and keep the invariant `Valid()`.
    The invariant says the original and the current image are present
    together and both are non-empty byte images. It also says that, across
    the operations modelled here, a pending save is the current image. Frame
    navigation breaks that, as the App.Session.Save line under "Left out"
    explains.

The source's imperative code is modelled with imperative Dafny:

- the slant factory's row loop, and the slice writes of cross and T, on
  `array2`;
- `ahe`'s double loop, which fills an `array2` tile by tile;
- the session globals.

Each of these methods is proved equal to a specification function. The
properties are then proved about that function.

## Model

| member | source | states |
|---|---|---|
| Grids.ZeroPad | image_processing/filtering.py:37-38 | constant padding: output is (H+2ph)x(W+2pw); each sample is the input sample `ph` rows and `pw` columns up-left, or 0 outside the image |
| Grids.Reflect | image_processing/thresholding.py:84-85 | the source index that 'reflect' padding reads always lies inside the axis |
| Grids.ReflectEdges | image_processing/thresholding.py:84-85 | reflect padding is the identity inside the axis, reads sample 1 for index -1 and sample n-2 for index n |
| Grids.ReflectIsMirror | image_processing/thresholding.py:84-85 | reflection is symmetric about the first sample: index -i reads the same sample as index i |
| Grids.ReflectPad | image_processing/thresholding.py:85 | the reflect-padded image is (H+2p)x(W+2p), and each sample is the input at the two reflected indices |
| Grids.GridMin | image_processing/thresholding.py:42 | the image minimum is one of its samples and at most every sample |
| Grids.GridMax | image_processing/thresholding.py:42 | the image maximum is one of its samples and at least every sample |
| Utils.Convolve | utils/utils.py:28-50 | output shape is exactly (H-kh+1)x(W-kw+1); sample (r,c) is the kernel's response at top-left corner (r,c) |
| Utils.ConvolveIsCorrelation | utils/utils.py:44-48 | the kernel is not flipped: a one-hot kernel with weight m at (a,b) gives m times the image at (r+a, c+b) |
| Utils.ConvolveIsLocal | utils/utils.py:44-45 | output (r,c) depends only on image rows r..r+kh-1 and columns c..c+kw-1 |
| Utils.ConvolveConstant | utils/utils.py:48 | a constant image v convolves to v times the kernel's sum everywhere |
| Utils.LaplacianOfConstantIsZero | image_processing/advanced.py:41-45 | the zero-sum 3x3 Laplacian convolves a constant image to all zeros |
| Filtering.FilteredSize | image_processing/filtering.py:37-41 | the filters' output side n+2(k/2)-k+1 is n for odd k and n+1 for even k |
| Filtering.AveragingFilter | image_processing/filtering.py:26-46 | output has the filtered size; each sample is the floor of the zero-padded k x k window sum divided by k^2 |
| Filtering.AveragingStaysInRange | image_processing/filtering.py:44-46 | averaging a byte image gives a byte image |
| Filtering.AveragingOfConstantInterior | image_processing/filtering.py:34-44 | where the whole window lies inside a constant image, the average is that constant |
| Filtering.Sort | image_processing/filtering.py:96 | the ascending arrangement of the window: sorted, same multiset, same length |
| Filtering.SortCounts | image_processing/filtering.py:96 | sorting keeps how many values are at most, and at least, any v |
| Filtering.MedianIsMiddleOrderStatistic | image_processing/filtering.py:96 | for an odd count n, the median is a member, and at least (n+1)/2 values lie on each side of it |
| Filtering.MedianIsBetweenMinAndMax | image_processing/filtering.py:96 | the median, or the floor of the mean of the two middle values, lies between the minimum and the maximum |
| Filtering.MedianFilter | image_processing/filtering.py:75-101 | output has the filtered size (H, W for odd k; H+1, W+1 for even k) |
| Filtering.MedianFilterAt | image_processing/filtering.py:83-99 | output (r,c) is the median of the flattened zero-padded k x k window at (r,c) |
| Filtering.MedianFilterIsOrderStatistic | image_processing/filtering.py:83-96 | for odd k, each output is the ((k^2+1)/2)-th smallest of its k^2 window samples; it is one of them and lies between their minimum and maximum |
| Filtering.MedianStaysInRange | image_processing/filtering.py:96-101 | the median filter keeps a byte image within 0..255 |
| Filtering.LaplacianKernel | image_processing/filtering.py:57-58 | a k x k kernel of -1 everywhere except k^2-1 at the centre (k/2, k/2) |
| Filtering.LaplacianResponse | image_processing/filtering.py:67 | the kernel's response to a window is k^2 times its centre minus its sum |
| Filtering.LaplacianOfFlatWindow | image_processing/filtering.py:57-67 | a window of equal samples responds with 0 |
| Filtering.LaplacianFilter | image_processing/filtering.py:49-70 | output has the filtered size; each sample is the non-negative `abs(k^2 * centre - windowSum)` over the zero-padded window, with the centre 0 past the edge |
| Filtering.LaplacianCells | image_processing/filtering.py:61-67 | the raw correlation of the padded image with the kernel, in closed form, sample by sample |
| Filtering.LaplacianOfFlatRegion | image_processing/filtering.py:67-70 | where the padded window is flat, the Laplacian output is 0 |
| Thresholding.SimpleThresholding | image_processing/thresholding.py:99-103 | shape is kept, values are in {0,255}, and a sample is 255 iff it is > t and 0 iff it is <= t |
| Thresholding.SimpleThresholdingIsAntitone | image_processing/thresholding.py:101 | raising the threshold can only shrink the foreground |
| Thresholding.SimpleThresholdingOfBinary | image_processing/thresholding.py:101 | a {0,255} image thresholded at any t in 0..254 is unchanged |
| Thresholding.BlockSize | image_processing/thresholding.py:80-81 | an even block size b becomes b+1, and an odd one is kept |
| Thresholding.LocalBlock | image_processing/thresholding.py:84-90 | the b x b block centred on (r,c) in the reflect-padded image, as reflected input indices |
| Thresholding.MeanComparison | image_processing/thresholding.py:91-94 | `p > S/q - C` over the rationals iff `p*q > S - C*q` over the integers |
| Thresholding.AdaptiveThresholding | image_processing/thresholding.py:71-96 | shape is kept, values are in {0,255}, and p is 255 iff p*b^2 > S - C*b^2 for its reflect-padded block sum S |
| Thresholding.AdaptiveOfConstant | image_processing/thresholding.py:91-94 | a constant image becomes all 255 iff C > 0, and all 0 otherwise |
| Thresholding.BinMidInside | image_processing/thresholding.py:49-65 | every bin midpoint except the last lies strictly inside the histogram's range |
| Thresholding.OtsuThreshold | image_processing/thresholding.py:42-65 | for a non-constant image the chosen threshold lies strictly between the image's minimum and maximum |
| Thresholding.BinaryOtsu | image_processing/thresholding.py:29-68 | shape is kept, values are in {0,255}, and a sample is 255 iff it is above the threshold |
| Thresholding.OtsuSeparatesExtremes | image_processing/thresholding.py:42-67 | on a non-constant image, minimum samples become 0 and maximum samples 255, whichever bin is chosen |
| Thresholding.OtsuIsSimpleThresholding | image_processing/thresholding.py:65-67 | Otsu equals simple thresholding at the floor of its threshold |
| Thresholding.OtsuOfConstant | image_processing/thresholding.py:42-67 | a constant image, with its histogram widened to v±1/2 and the first index taken, becomes all 255 |
| Enhancing.Histogram | image_processing/enhancing.py:31 | bincount with 256 bins: bin v counts the samples equal to v |
| Enhancing.HistogramTotal | image_processing/enhancing.py:31-33 | the 256 bins of byte samples total the number of samples, so dividing by np.sum(bin_cont) is dividing by N |
| Enhancing.CumSum | image_processing/enhancing.py:34 | cumsum: entry 0 is bin 0, and each later entry adds its bin |
| Enhancing.CumulativeHistogram | image_processing/enhancing.py:31-34 | for byte samples, the cumulative histogram at v is the number of samples <= v |
| Enhancing.HistEqualization | image_processing/enhancing.py:21-39 | shape is kept; each sample v becomes floor(255 * cum(v) / N) |
| Enhancing.HistEqualizationIsMonotone | image_processing/enhancing.py:34-37 | p <= q implies output(p) <= output(q) |
| Enhancing.HistEqualizationRange | image_processing/enhancing.py:35-39 | outputs are bytes, and the brightest sample maps to 255 |
| Enhancing.Tile | image_processing/enhancing.py:57 | the tile at (r0,c0) has ry rows and rx columns, clipped at the bottom and right borders; it holds the input samples at its offsets |
| Enhancing.Origin | image_processing/enhancing.py:55-56 | a coordinate's tile origin is the multiple of the step at or just below it |
| Enhancing.AheImage | image_processing/enhancing.py:42-60 | the ahe output is H x W; each sample is the equalisation of its own clipped tile, read at its offset in the tile |
| Enhancing.Ahe | image_processing/enhancing.py:53-60 | the double loop (columns by rx outside, rows by ry inside) writes every sample of a fresh H x W array, and the result equals AheImage |
| Enhancing.EqualizeStrip | image_processing/enhancing.py:56-59 | the inner loop writes exactly the column strip i..i+rx-1 and keeps the other columns |
| Enhancing.EqualizeTile | image_processing/enhancing.py:57-59 | one slice assignment writes exactly the samples of the tile at (j,i) and keeps the rest |
| Enhancing.AheRange | image_processing/enhancing.py:58-60 | the ahe output is a byte image |
| Enhancing.AheIsTileLocal | image_processing/enhancing.py:57-59 | two images that agree on a sample's tile give the same output at that sample |
| Enhancing.AheOfOneTile | image_processing/enhancing.py:55-59 | with tiles at least as large as the image, ahe is plain equalisation |
| Enhancing.GlobalBinIsValue | image_processing/enhancing.py:13 | with 256 bins over [0,255], a byte v falls in bin floor(256v/255) clipped to the last bin, which is bin v |
| Enhancing.CdfExtremes | image_processing/enhancing.py:14-15 | the cumulative histogram's minimum is its first entry and its maximum is N |
| Enhancing.LevelIsMonotone | image_processing/enhancing.py:15 | (a - z) * 255 / (N - z) runs from 0 at a = z to 255 at a = N and does not decrease |
| Enhancing.GlobalMap | image_processing/enhancing.py:13-15 | the remap table over the 256 values, entry v being the level of cum(v) |
| Enhancing.GlobalHistEqualization | image_processing/enhancing.py:12-18 | shape is kept; each sample v becomes (cdf[v] - cdf[0]) * 255 / (N - cdf[0]), unrounded |
| Enhancing.GlobalHistEqualizationExtremes | image_processing/enhancing.py:15-16 | value 0 maps to 0, and the image maximum maps to exactly 255 |
| Enhancing.GlobalHistEqualizationIsMonotone | image_processing/enhancing.py:15-16 | outputs lie in [0,255] and keep the order of the samples |
| Morphology.Clamp | image_processing/morphology.py:37-38 | sizes are raised to at least 1, and sizes of 1 or more are kept |
| Morphology.Square | image_processing/morphology.py:50-62 | an all-ones n' x n' grid, where n' = max(n,1) |
| Morphology.Circle | image_processing/morphology.py:65-85 | a 0/1 grid of side 2r'+1, where r' = max(r,1) |
| Morphology.Ellipse | image_processing/morphology.py:25-47 | a 0/1 grid of side 2*(max(w',h')/2)+1, where w' and h' are the clamped axes |
| Morphology.Diamond | image_processing/morphology.py:88-107 | a 0/1 grid of side n' |
| Morphology.CrossShape | image_processing/morphology.py:110-132 | a 0/1 n' x n' grid in which exactly row n'/2 and column n'/2 are set |
| Morphology.Cross | image_processing/morphology.py:121-132 | writing the middle row, then the middle column, into a zero array gives CrossShape |
| Morphology.SetRow | image_processing/morphology.py:128-130 | a[row, :] = 1 sets exactly that row and keeps every other cell |
| Morphology.SetColumn | image_processing/morphology.py:128-130 | a[:, column] = 1 sets exactly that column and keeps every other cell |
| Morphology.TShape | image_processing/morphology.py:135-155 | a 0/1 n' x n' grid in which exactly row 0 and column n'/2 are set |
| Morphology.T | image_processing/morphology.py:146-155 | writing column n'/2, then row 0, into a zero array gives TShape |
| Morphology.SlantShape | image_processing/morphology.py:158-183 | 'left' and 'right' give a 0/1 n' x n' grid; any other direction is an error |
| Morphology.Slant | image_processing/morphology.py:170-183 | the row-by-row loop gives SlantShape, including its error |
| Morphology.SlantRowCounts | image_processing/morphology.py:175-179 | row i of the left slant holds i+1 ones, and row i of the right slant holds n'-i |
| Morphology.SlantsAreHalfTurns | image_processing/morphology.py:170-179 | the left slant is the right slant turned through 180 degrees |
| Morphology.PolygonSize | image_processing/morphology.py:197-199 | fewer than 3 sides is an error; otherwise the size becomes max(size,3) |
| Morphology.SmallShapesAgree | image_processing/morphology.py:76-130 | circle(1), cross(3) and diamond(3) are all the five-cell plus |
| Morphology.EllipseOfEqualAxes | image_processing/morphology.py:37-45 | an ellipse with both axes 2r is the circle of radius r |
| Morphology.FactoryAnchorsAreSet | image_processing/morphology.py:25-183 | every factory mask has its anchor cell (rows/2, cols/2) set, except that the right slant's is set iff its size is odd |
| Morphology.Lower | image_processing/morphology.py:258 | lower-casing keeps the length and maps each character |
| Morphology.CustomElement | image_processing/morphology.py:237-277 | an unknown lower-cased name is an InvalidShape error |
| Morphology.CreateCustom | image_processing/morphology.py:258-277 | the dispatcher that calls the imperative cross, T and slant factories equals CustomElement |
| Morphology.CustomElementIgnoresCase | image_processing/morphology.py:258 | the dispatcher does not depend on the case of the name |
| Morphology.CustomElementExamples | image_processing/morphology.py:258-277 | 'SqUaRe' is the square; slant defaults to 'left'; a bad direction, too few sides, an unknown name and missing arguments are errors; polygon(1,5) has size 3 |
| Morphology.Binarized | image_processing/morphology.py:303 | a sample becomes 1 iff it is above 127 |
| Morphology.Window | image_processing/morphology.py:310-319 | the zero-padded binary window under the element at pixel (r,c), anchored at (se_h/2, se_w/2) |
| Morphology.WindowFits | image_processing/morphology.py:324-335 | np.all over the element's set cells in the window iff every set cell lands on foreground |
| Morphology.WindowHits | image_processing/morphology.py:378-386 | np.any over the overlap iff some set cell lands on foreground |
| Morphology.Erosion | image_processing/morphology.py:284-335 | output is H x W in {0,255}; a pixel is 255 iff every set element cell lands on input foreground, with outside cells as background |
| Morphology.Dilation | image_processing/morphology.py:338-386 | output is H x W in {0,255}; a pixel is 255 iff some set element cell lands on input foreground (element not reflected) |
| Morphology.Opening | image_processing/morphology.py:389-402 | dilation of the erosion, H x W in {0,255} |
| Morphology.Closing | image_processing/morphology.py:405-418 | erosion of the dilation, H x W in {0,255} |
| Morphology.AnchoredErosionShrinks | image_processing/morphology.py:329-332 | with the anchor set, erosion's foreground is within the input's (> 127) foreground |
| Morphology.AnchoredDilationGrows | image_processing/morphology.py:380-383 | with the anchor set, the input's foreground is within dilation's foreground |
| Morphology.ErosionIsMonotone | image_processing/morphology.py:324-335 | a larger foreground erodes to a larger foreground |
| Morphology.DilationIsMonotone | image_processing/morphology.py:378-386 | a larger foreground dilates to a larger foreground |
| Morphology.OpeningAndClosingAreBetween | image_processing/morphology.py:389-418 | with the anchor set, opening and closing both lie between erosion and dilation |
| Morphology.UnitElementThresholds | image_processing/morphology.py:303-386 | with the element [[1]], erosion and dilation are both thresholding at 127 |
| App.ClampByte | gui/app.py:833 | np.clip into 0..255: values in range are kept, and values below or above go to 0 or 255 |
| App.Brighten | gui/app.py:828-835 | shape is kept, each sample v becomes clip(v + value, 0, 255), and the result is a byte image |
| App.BrightenExtremes | gui/app.py:830-833 | +0 is the identity on byte images, +255 makes them all 255 and -255 all 0 |
| App.BrightenComposes | gui/app.py:833 | two brightness steps of the same sign equal one step by their sum |
| App.FlipHorizontal | gui/app.py:870-873 | shape is kept and out[r][c] = in[r][W-1-c] |
| App.FlipVertical | gui/app.py:875-878 | shape is kept and out[r][c] = in[H-1-r][c] |
| App.RotateClockwise | gui/app.py:865-868 | a W x H grid with out[r][c] = in[H-1-c][r] |
| App.FlipsAreInvolutions | gui/app.py:870-878 | each mirror applied twice restores the grid |
| App.HalfTurn | gui/app.py:866 | two quarter turns equal both mirrors together |
| App.FullTurn | gui/app.py:866 | four quarter turns restore the grid |
| App.ByteCast | image_processing/filtering.py:70 | the uint8 reduction of the Laplacian: shape kept, each sample taken mod 256 |
| App.Step | gui/app.py:761-916 | a menu function leaves the images alone iff its dialog was dismissed, or a fixed threshold lies outside 0..255 |
| App.StepKeepsGood | gui/app.py:761-916 | every menu function turns a non-empty byte image into a non-empty byte image |
| App.FilterKeepsGood | gui/app.py:761-775 | each of the three filters, at any kernel size, turns a non-empty byte image into a non-empty byte image |
| App.RotateKeepsGood | gui/app.py:865-868 | the quarter turn keeps a non-empty byte image |
| App.FlipsKeepGood | gui/app.py:870-878 | both mirrors keep a non-empty byte image |
| App.RevertRestoresOriginal | gui/app.py:913-916 | revert makes the current image the loaded original |
| App.Session.constructor | gui/app.py:84-86 | all three globals start as None, and the invariant holds |
| App.Session.SelectImage | gui/app.py:548-568 | loading always clears the pending save; a loaded image becomes both the original and the current image; a cancelled load keeps them |
| App.Session.Perform | gui/app.py:714-916 | with no image, or no selected function, it warns and changes nothing. Otherwise it is Done iff Step gives an image, which becomes both the current and the to-save image, with the original kept. Any other outcome changes nothing. The invariant is kept |
| App.Session.Save | gui/app.py:918-938 | the image handed over to be written is the pending save; None means the warning is shown. Across loading and the modelled menu functions, a pending save is the current image |

## Left out

- Colour images and the luma conversion (0.2989/0.5870/0.1140) at the top of
  each library function are not modelled. Every image is a single channel.
  `bgr_to_yuv`, `yuv_to_bgr` and `rgb_to_gray` are not part of this model.
- App.RotateClockwise: the quarter turn is stated for every grid. The source
  transposes with axes (1, 0, 2), which needs a three-channel array, so it
  raises on the two-dimensional result of a filter, threshold, equalisation
  or morphology step. The model does not capture that exception.
- App.Step: the "Global" choice of histogram equalisation is not a step of
  the session. It yields unrounded values (modelled separately as
  Enhancing.GlobalHistEqualization), and the colour paths through YUV and
  HSV are library colour conversions.
- Contrast by multiplication and by power, resize, and the
  Laplacian-of-Gaussian, clustering and segmentation menu functions are not
  modelled. They are floating-point or library (OpenCV) operations, and
  image_processing/advanced.py is not part of this model.
- Thresholding.OtsuThreshold: the floating-point between-class variance
  search is not modelled. The index it selects is a parameter, below 255,
  and the threshold is that bin's exact midpoint.
- Filtering.AveragingFilter: the exact floor of window sum / k^2 is stated.
  The float32 weights 1/k^2 can truncate one below the exact mean.
- Enhancing.HistEqualization: `floor(255 * cum / N)` is computed exactly.
  The source sums floating-point fractions, which can fall just below an
  integer.
- Utils.Convolve: the closing uint8 cast is not modelled. The result is the
  exact integer correlation.
- Filtering.LaplacianFilter: this is the response before the uint8 cast.
  Responses above 255 are cast in a platform-dependent way. The session
  (App.ByteCast) takes them mod 256.
- Morphology.Erosion, Morphology.Dilation: the input's uint8 cast is not
  modelled. That cast wraps samples outside 0..255. The model binarises the
  samples as they are, which agrees with the source on byte images.
- Filtering.AveragingFilter, Filtering.MedianFilter, Filtering.LaplacianFilter,
  Thresholding.AdaptiveThresholding, Thresholding.BinaryOtsu: each source
  function begins with the same uint8 cast of its input. That cast is not
  modelled. These members require a byte image (`Pixels`), which the window
  always supplies, so they say nothing about inputs outside 0..255.
- Morphology.Ellipse: the floating-point test (x/(w/2))^2 + (y/(h/2))^2 <= 1
  is decided exactly, as `4x^2h^2 + 4y^2w^2 <= w^2h^2`. On boundary cells,
  where the exact sum is 1 (for example w = h = 10 at offset (3, 4)), the
  rounded float sum may fall on either side of 1. Morphology.EllipseOfEqualAxes
  is therefore a fact about the exact test.
- Enhancing.GlobalHistEqualization: the remap is computed in exact rationals.
  The source computes float64 quotients, so its values can differ from these
  in the last place.
- App.Session.Save: `next_frame` and `prev_frame` are not modelled (video
  frame navigation). They replace both the original and the current image
  with another frame and leave `save_image` as it was. After an operation
  followed by a frame change, the source therefore saves the earlier frame's
  result. The model's `saved == changed` holds only across loading and the
  modelled menu functions.
- Morphology.CustomElement: for 'polygon' it returns the checked size and
  the number of sides. The sin/cos vertex placement and the ray-casting
  rasterisation are not modelled.
- Morphology.Lower: only ASCII letters are lower-cased.
- Otsu on a constant image: the first histogram bin is empty there, so the
  float variance search computes 0/0, and argmax returns the first NaN,
  index 0. The model does not compute NaN. It states the result for index 0
  in Thresholding.OtsuOfConstant.
- App.Session.SelectImage: loading from disk, PDF pages and video frames is
  not modelled, and neither are the file and folder dialogs. The loaded image
  is a parameter (None for a cancelled load).
- App.Session.Save: the file dialog and the write (`cv2.imwrite`) are not
  modelled.
- The remaining UI is not modelled: dialogs, display, the animation and
  `print`. The values a dialog hands over are part of `Op`, and `ValidOp`
  states their ranges. A threshold type other than BO, AT or SV cannot come
  from the dialog and is not modelled.
