/** gui/app.py: the pixel transforms the window applies directly (brightness,
    rotation, mirroring) and the session state kept in the module globals
    original_image, changed_image and save_image. */
module App {
  import opened Wrappers
  import opened Grids
  import Filtering
  import Thresholding
  import Enhancing
  import Morphology

  // ---------------------------------------------------------------------------
  // Brightness

  /** clip(v + value, 0, 255). */
  function ClampByte(x: int): (y: int)
    ensures 0 <= y <= 255
    ensures 0 <= x <= 255 ==> y == x
    ensures x < 0 ==> y == 0
    ensures x > 255 ==> y == 255
  {
    if x < 0 then 0 else if x > 255 then 255 else x
  }

  function Brighten(image: Image, value: int): (out: Image)
    requires Rect(image)
    ensures IsShape(out, |image|, Width(image)) && Pixels(out)
    ensures forall r, c | 0 <= r < |out| && 0 <= c < |out[r]| :: out[r][c] == ClampByte(image[r][c] + value)
  {
    seq(|image|, r requires 0 <= r < |image| =>
      seq(Width(image), c requires 0 <= c < Width(image) => ClampByte(image[r][c] + value)))
  }

  /** Adding 0 changes nothing; +255 whitens and -255 blackens a byte image. */
  lemma BrightenExtremes(image: Image)
    requires Rect(image) && Pixels(image)
    ensures Brighten(image, 0) == image
    ensures IsConstant(Brighten(image, 255), 255) && IsConstant(Brighten(image, -255), 0)
  {
    var out := Brighten(image, 0);
    forall r | 0 <= r < |image| ensures out[r] == image[r] {
    }
  }

  /** Two brightness steps of the same sign add up (on byte images). */
  lemma BrightenComposes(image: Image, a: int, b: int)
    requires Rect(image) && Pixels(image)
    requires (a >= 0 && b >= 0) || (a <= 0 && b <= 0)
    ensures Brighten(Brighten(image, a), b) == Brighten(image, a + b)
  {
    var once, twice := Brighten(Brighten(image, a), b), Brighten(image, a + b);
    forall r | 0 <= r < |image| ensures once[r] == twice[r] {
    }
  }

  // ---------------------------------------------------------------------------
  // Index permutations

  /** np.flip(image, axis=1): out[r][c] = in[r][W-1-c]. */
  function FlipHorizontal<T>(g: Grid<T>): (out: Grid<T>)
    requires Rect(g)
    ensures IsShape(out, |g|, Width(g))
    ensures forall r, c | 0 <= r < |g| && 0 <= c < Width(g) :: out[r][c] == g[r][Width(g) - 1 - c]
  {
    seq(|g|, r requires 0 <= r < |g| =>
      seq(Width(g), c requires 0 <= c < Width(g) => g[r][Width(g) - 1 - c]))
  }

  /** np.flipud(image): out[r][c] = in[H-1-r][c]. */
  function FlipVertical<T>(g: Grid<T>): (out: Grid<T>)
    requires Rect(g)
    ensures IsShape(out, |g|, Width(g))
    ensures forall r, c | 0 <= r < |g| && 0 <= c < Width(g) :: out[r][c] == g[|g| - 1 - r][c]
  {
    seq(|g|, r requires 0 <= r < |g| =>
      seq(Width(g), c requires 0 <= c < Width(g) => g[|g| - 1 - r][c]))
  }

  /** Transpose, then reverse each row: a W-by-H grid with out[r][c] = in[H-1-c][r],
      a quarter turn clockwise. */
  function RotateClockwise<T>(g: Grid<T>): (out: Grid<T>)
    requires Rect(g)
    ensures IsShape(out, Width(g), |g|)
    ensures forall r, c | 0 <= r < Width(g) && 0 <= c < |g| :: out[r][c] == g[|g| - 1 - c][r]
  {
    seq(Width(g), r requires 0 <= r < Width(g) =>
      seq(|g|, c requires 0 <= c < |g| => g[|g| - 1 - c][r]))
  }

  lemma SameGrid<T>(a: Grid<T>, b: Grid<T>, h: nat, w: nat)
    requires IsShape(a, h, w) && IsShape(b, h, w)
    requires forall r, c | 0 <= r < h && 0 <= c < w :: a[r][c] == b[r][c]
    ensures a == b
  {
    forall r | 0 <= r < h ensures a[r] == b[r] {
    }
  }

  /** Each mirror undoes itself. */
  lemma FlipsAreInvolutions<T>(g: Grid<T>)
    requires Rect(g)
    ensures FlipHorizontal(FlipHorizontal(g)) == g
    ensures FlipVertical(FlipVertical(g)) == g
  {
    var h, w := |g|, Width(g);
    var twiceH, twiceV := FlipHorizontal(FlipHorizontal(g)), FlipVertical(FlipVertical(g));
    forall r, c | 0 <= r < h && 0 <= c < w ensures twiceH[r][c] == g[r][c] {
      assert twiceH[r][c] == FlipHorizontal(g)[r][w - 1 - c];
    }
    forall r, c | 0 <= r < h && 0 <= c < w ensures twiceV[r][c] == g[r][c] {
      assert twiceV[r][c] == FlipVertical(g)[h - 1 - r][c];
    }
    SameGrid(twiceH, g, h, w);
    SameGrid(twiceV, g, h, w);
  }

  /** Two quarter turns are the half turn, both mirrors at once. */
  lemma HalfTurn<T>(g: Grid<T>)
    requires NonEmpty(g)
    ensures RotateClockwise(RotateClockwise(g)) == FlipVertical(FlipHorizontal(g))
  {
    var once := RotateClockwise(g);
    assert Width(once) == |g|;
    SameGrid(RotateClockwise(once), FlipVertical(FlipHorizontal(g)), |g|, Width(g));
  }

  /** Four quarter turns restore the grid. */
  lemma FullTurn<T>(g: Grid<T>)
    requires NonEmpty(g)
    ensures RotateClockwise(RotateClockwise(RotateClockwise(RotateClockwise(g)))) == g
  {
    HalfTurn(g);
    var half := RotateClockwise(RotateClockwise(g));
    assert half == FlipVertical(FlipHorizontal(g));
    assert NonEmpty(half);
    HalfTurn(half);
    var h := FlipHorizontal(g);
    SameGrid(FlipVertical(FlipHorizontal(FlipVertical(h))), g, |g|, Width(g));
  }

  // ---------------------------------------------------------------------------
  // The session

  /** An image the window can hold: a non-empty grid of bytes. */
  predicate Good(image: Image) {
    NonEmpty(image) && Pixels(image)
  }

  datatype FilterKind = Averaging | Median | Laplacian
  datatype MorphKind = Erode | Dilate | Open | Close
  datatype ThresholdKind =
    | BinaryOtsu(index: nat)  // index: the bin the variance search selects
    | AdaptiveMean            // block size 3, C = 2
    | Fixed(value: int)       // the value typed into the dialog

  /** A menu function together with the dialog input it asked for. */
  datatype Op =
    | ApplyFilter(kind: FilterKind, k: nat)
    | EqualizeAdaptive
    | ApplyThreshold(threshold: ThresholdKind)
    | AddBrightness(value: int)
    | Rotate
    | FlipH
    | FlipV
    | ApplyMorphology(op: MorphKind, se: Image)
    | Revert
    | Dismissed               // the dialog was closed without accepting

  /** What the dialogs can hand over: a kernel size from 3, 5, 7, 9, 11, a
      brightness in [-255, 255], a rectangular structuring element, and a bin
      index below 255 (the variance search ranges over 255 candidates). */
  predicate ValidOp(op: Op) {
    match op
    case ApplyFilter(_, k) => k in {3, 5, 7, 9, 11}
    case ApplyThreshold(t) => t.BinaryOtsu? ==> t.index < 255
    case AddBrightness(v) => -255 <= v <= 255
    case ApplyMorphology(_, se) => Rect(se)
    case _ => true
  }

  datatype Outcome = NoImage | NoFunction | InvalidThreshold | Cancelled | Done

  /** uint8 reduction of a non-negative Laplacian response. */
  function ByteCast(image: Image): (out: Image)
    requires Rect(image)
    ensures IsShape(out, |image|, Width(image)) && Pixels(out)
    ensures forall r, c | 0 <= r < |out| && 0 <= c < |out[r]| :: out[r][c] == image[r][c] % 256
  {
    seq(|image|, r requires 0 <= r < |image| =>
      seq(Width(image), c requires 0 <= c < Width(image) => image[r][c] % 256))
  }

  function Filtered(kind: FilterKind, image: Image, k: nat): Image
    requires Good(image) && k >= 1
  {
    match kind
    case Averaging => Filtering.AveragingFilter(image, k)
    case Median => Filtering.MedianFilter(image, k)
    case Laplacian => ByteCast(Filtering.LaplacianFilter(image, k))
  }

  function Thresholded(t: ThresholdKind, image: Image): Image
    requires Good(image) && (t.BinaryOtsu? ==> t.index < 255)
  {
    match t
    case BinaryOtsu(index) => Thresholding.BinaryOtsu(image, index)
    case AdaptiveMean => Thresholding.AdaptiveThresholding(image, 3, 2)
    case Fixed(v) => Thresholding.SimpleThresholding(image, v)
  }

  function Morphed(op: MorphKind, image: Image, se: Image): Image
    requires Rect(image) && Rect(se)
  {
    match op
    case Erode => Morphology.Erosion(image, se)
    case Dilate => Morphology.Dilation(image, se)
    case Open => Morphology.Opening(image, se)
    case Close => Morphology.Closing(image, se)
  }

  /** The new image a menu function produces from the current one, or None
      when it leaves the session alone (a fixed threshold outside [0, 255], or
      a dismissed dialog). ahe runs with its default tiles of 193 by 199. */
  function Step(op: Op, current: Image, original: Image): (next: Option<Image>)
    requires Good(current) && Good(original) && ValidOp(op)
    ensures next.None? <==> op.Dismissed? || (op.ApplyThreshold? && op.threshold.Fixed? && !(0 <= op.threshold.value <= 255))
  {
    match op
    case ApplyFilter(kind, k) => Some(Filtered(kind, current, k))
    case EqualizeAdaptive => Some(Enhancing.AheImage(current, 193, 199))
    case ApplyThreshold(t) =>
      if t.Fixed? && !(0 <= t.value <= 255) then None else Some(Thresholded(t, current))
    case AddBrightness(v) => Some(Brighten(current, v))
    case Rotate => Some(RotateClockwise(current))
    case FlipH => Some(FlipHorizontal(current))
    case FlipV => Some(FlipVertical(current))
    case ApplyMorphology(m, se) => Some(Morphed(m, current, se))
    case Revert => Some(original)
    case Dismissed => None
  }

  lemma BinaryIsPixels(image: Image)
    requires BinaryValued(image)
    ensures Pixels(image)
  {
  }

  lemma FilteredSizeAtLeast(n: nat, k: nat)
    requires k >= 1
    ensures Filtering.FilteredSize(n, k) >= n
  {
  }

  /** Every menu function turns a good image into a good image. */
  lemma StepKeepsGood(op: Op, current: Image, original: Image)
    requires Good(current) && Good(original) && ValidOp(op)
    ensures Step(op, current, original).Some? ==> Good(Step(op, current, original).value)
  {
    match op {
      case ApplyFilter(kind, k) => FilterKeepsGood(kind, current, k);
      case EqualizeAdaptive => Enhancing.AheRange(current, 193, 199);
      case ApplyThreshold(t) =>
        if !(t.Fixed? && !(0 <= t.value <= 255)) {
          BinaryIsPixels(Thresholded(t, current));
        }
      case AddBrightness(v) =>
      case Rotate => RotateKeepsGood(current);
      case FlipH => FlipsKeepGood(current);
      case FlipV => FlipsKeepGood(current);
      case ApplyMorphology(m, se) => BinaryIsPixels(Morphed(m, current, se));
      case Revert =>
      case Dismissed =>
    }
  }

  lemma FilterKeepsGood(kind: FilterKind, image: Image, k: nat)
    requires Good(image) && k >= 1
    ensures Good(Filtered(kind, image, k))
  {
    FilteredSizeAtLeast(|image|, k);
    FilteredSizeAtLeast(Width(image), k);
    match kind {
      case Averaging => Filtering.AveragingStaysInRange(image, k);
      case Median => Filtering.MedianStaysInRange(image, k);
      case Laplacian =>
    }
  }

  lemma RotateKeepsGood(image: Image)
    requires Good(image)
    ensures Good(RotateClockwise(image))
  {
    var out := RotateClockwise(image);
    forall r, c | 0 <= r < |out| && 0 <= c < |out[r]| ensures 0 <= out[r][c] <= 255 {
      assert out[r][c] == image[|image| - 1 - c][r];
    }
  }

  lemma FlipsKeepGood(image: Image)
    requires Good(image)
    ensures Good(FlipHorizontal(image)) && Good(FlipVertical(image))
  {
    var h, w := |image|, Width(image);
    var a, b := FlipHorizontal(image), FlipVertical(image);
    forall r, c | 0 <= r < h && 0 <= c < w ensures 0 <= a[r][c] <= 255 && 0 <= b[r][c] <= 255 {
      assert a[r][c] == image[r][w - 1 - c];
      assert b[r][c] == image[h - 1 - r][c];
    }
  }

  /** The three globals. Once an image is loaded, the original and the current
      image are both present, and, across the operations modelled here, whatever
      is ready to be saved is the current image. */
  class Session {
    var original: Option<Image>
    var changed: Option<Image>
    var saved: Option<Image>

    ghost predicate Valid()
      reads this
    {
      (original.Some? <==> changed.Some?) &&
      (original.Some? ==> Good(original.value) && Good(changed.value)) &&
      (saved.Some? ==> saved == changed)
    }

    constructor()
      ensures Valid() && original == None && changed == None && saved == None
    {
      original, changed, saved := None, None, None;
    }

    /** Choosing a file always drops the pending save; a file that loads becomes
      both the original and the current image, and a cancelled or failed load
      keeps the previous images. */
    method SelectImage(loaded: Option<Image>)
      requires Valid() && (loaded.Some? ==> Good(loaded.value))
      modifies this
      ensures Valid() && saved == None
      ensures loaded.Some? ==> original == loaded && changed == loaded
      ensures loaded.None? ==> original == old(original) && changed == old(changed)
    {
      saved := None;
      if loaded.Some? {
        original := loaded;
        changed := loaded;
      }
    }

    /** perform_function: warns and changes nothing without an image or a
      selected function; otherwise applies the function to the current image,
      and every completed function also makes the result the one to save. */
    method Perform(selection: Option<Op>) returns (outcome: Outcome)
      requires Valid() && (selection.Some? ==> ValidOp(selection.value))
      modifies this
      ensures Valid()
      ensures old(original).None? ==> outcome == NoImage
      ensures old(original).Some? && selection.None? ==> outcome == NoFunction
      ensures outcome != Done ==>
        original == old(original) && changed == old(changed) && saved == old(saved)
      ensures outcome == Done <==>
        (old(original).Some? && selection.Some? &&
         Step(selection.value, old(changed).value, old(original).value).Some?)
      ensures outcome == Done ==>
        original == old(original) &&
        changed == Step(selection.value, old(changed).value, old(original).value) &&
        saved == changed
    {
      if original.None? {
        return NoImage;
      }
      if selection.None? {
        return NoFunction;
      }
      var op := selection.value;
      var current := changed.value;
      StepKeepsGood(op, current, original.value);
      var next: Option<Image>;
      match op {
        case EqualizeAdaptive =>
          var equalized := Enhancing.Ahe(current, 193, 199);
          next := Some(equalized);
        case _ =>
          next := Step(op, current, original.value);
      }
      assert next == Step(op, current, original.value);
      if next.None? {
        outcome := if op.Dismissed? then Cancelled else InvalidThreshold;
        return;
      }
      changed := next;
      saved := next;
      outcome := Done;
    }

    /** save_image_function: hands over the image to write, or None (a warning)
      when nothing has been produced since the last load. */
    method Save() returns (toWrite: Option<Image>)
      requires Valid()
      ensures toWrite == saved
      ensures toWrite.Some? ==> toWrite == changed
    {
      toWrite := saved;
    }
  }

  /** Reverting brings back the loaded image, whatever was applied before. */
  lemma RevertRestoresOriginal(current: Image, original: Image)
    requires Good(current) && Good(original)
    ensures Step(Revert, current, original) == Some(original)
  {
  }
}
