/** morphology.py: structuring-element factories, the case-insensitive
    dispatcher that picks one by name, and binary erosion, dilation, opening
    and closing of an image binarised at > 127. */
module Morphology {
  import opened Wrappers
  import opened Grids

  // ---------------------------------------------------------------------------
  // Structuring elements

  /** Every size parameter is first raised to at least 1 (max(n, 1)). */
  function Clamp(n: int): (m: nat)
    ensures m >= 1 && m >= n && (n >= 1 ==> m == n)
  {
    if n < 1 then 1 else n
  }

  predicate ZeroOne(se: Image) {
    forall i, j | 0 <= i < |se| && 0 <= j < |se[i]| :: se[i][j] == 0 || se[i][j] == 1
  }

  /** The cell an erosion or dilation anchors at each output pixel. */
  predicate AnchorIsSet(se: Image) {
    0 <= |se| / 2 < |se| && 0 <= Width(se) / 2 < |se[|se| / 2]| && se[|se| / 2][Width(se) / 2] == 1
  }

  /** All ones, size-by-size. */
  function Square(size: int): (se: Image)
    ensures IsShape(se, Clamp(size), Clamp(size)) && IsConstant(se, 1)
  {
    Constant(Clamp(size), Clamp(size), 1)
  }

  /** Side 2r+1 with the centre at (r, r); a cell is set iff its offsets from the
      centre, x and y, satisfy x^2 + y^2 <= r^2. */
  function Circle(radius: int): (se: Image)
    ensures var r := Clamp(radius); IsShape(se, 2 * r + 1, 2 * r + 1) && ZeroOne(se)
  {
    var r := Clamp(radius);
    seq(2 * r + 1, i requires 0 <= i < 2 * r + 1 =>
      seq(2 * r + 1, j requires 0 <= j < 2 * r + 1 =>
        var y, x := i - r, j - r;
        if x * x + y * y <= r * r then 1 else 0))
  }

  /** The side of the ellipse's grid: 2 * (max(width, height) / 2) + 1. */
  function EllipseSide(width: int, height: int): nat {
    var m := if Clamp(width) >= Clamp(height) then Clamp(width) else Clamp(height);
    2 * (m / 2) + 1
  }

  /** x^2/(w/2)^2 + y^2/(h/2)^2 <= 1 over the offsets x (columns) and y (rows)
      from the centre, in the exact form 4 x^2 h^2 + 4 y^2 w^2 <= w^2 h^2. */
  function Ellipse(width: int, height: int): (se: Image)
    ensures var n := EllipseSide(width, height); IsShape(se, n, n) && ZeroOne(se)
  {
    var w, h := Clamp(width), Clamp(height);
    var n := EllipseSide(width, height);
    var m := n / 2;
    seq(n, i requires 0 <= i < n =>
      seq(n, j requires 0 <= j < n =>
        var y, x := i - m, j - m;
        if 4 * x * x * h * h + 4 * y * y * w * w <= w * w * h * h then 1 else 0))
  }

  function Abs(x: int): nat {
    if x < 0 then -x else x
  }

  /** size-by-size with centre c = size / 2; a cell is set iff its city-block
      distance from the centre is at most c. */
  function Diamond(size: int): (se: Image)
    ensures var n := Clamp(size); IsShape(se, n, n) && ZeroOne(se)
  {
    var n := Clamp(size);
    var c := n / 2;
    seq(n, i requires 0 <= i < n =>
      seq(n, j requires 0 <= j < n => if Abs(j - c) + Abs(i - c) <= c then 1 else 0))
  }

  /** Row size/2 and column size/2 set, every other cell clear. */
  function CrossShape(size: int): (se: Image)
    ensures var n := Clamp(size); IsShape(se, n, n) && ZeroOne(se)
  {
    var n := Clamp(size);
    seq(n, i requires 0 <= i < n =>
      seq(n, j requires 0 <= j < n => if i == n / 2 || j == n / 2 then 1 else 0))
  }

  /** Starts from zeros and writes the middle row, then the middle column. */
  method Cross(size: int) returns (se: Image)
    ensures se == CrossShape(size)
  {
    var n := Clamp(size);
    var a := new int[n, n]((i, j) => 0);
    var center := n / 2;
    SetRow(a, center);
    SetColumn(a, center);
    se := FromArray(a);
    ghost var spec := CrossShape(size);
    forall i, j | 0 <= i < n && 0 <= j < n ensures se[i][j] == spec[i][j] {
      assert se[i][j] == a[i, j];
    }
    SameCells(se, spec, n);
  }

  /** a[row, :] = 1. */
  method SetRow(a: array2<int>, row: nat)
    requires row < a.Length0
    modifies a
    ensures forall i, j | 0 <= i < a.Length0 && 0 <= j < a.Length1 ::
      a[i, j] == if i == row then 1 else old(a[i, j])
  {
    forall j | 0 <= j < a.Length1 {
      a[row, j] := 1;
    }
  }

  /** a[:, column] = 1. */
  method SetColumn(a: array2<int>, column: nat)
    requires column < a.Length1
    modifies a
    ensures forall i, j | 0 <= i < a.Length0 && 0 <= j < a.Length1 ::
      a[i, j] == if j == column then 1 else old(a[i, j])
  {
    forall i | 0 <= i < a.Length0 {
      a[i, column] := 1;
    }
  }

  /** Row 0 and column size/2 set, every other cell clear. */
  function TShape(size: int): (se: Image)
    ensures var n := Clamp(size); IsShape(se, n, n) && ZeroOne(se)
  {
    var n := Clamp(size);
    seq(n, i requires 0 <= i < n =>
      seq(n, j requires 0 <= j < n => if i == 0 || j == n / 2 then 1 else 0))
  }

  /** Starts from zeros and writes the middle column, then the first row. */
  method T(size: int) returns (se: Image)
    ensures se == TShape(size)
  {
    var n := Clamp(size);
    var a := new int[n, n]((i, j) => 0);
    SetColumn(a, n / 2);
    SetRow(a, 0);
    se := FromArray(a);
    ghost var spec := TShape(size);
    forall i, j | 0 <= i < n && 0 <= j < n ensures se[i][j] == spec[i][j] {
      assert se[i][j] == a[i, j];
    }
    SameCells(se, spec, n);
  }

  /** 'left': row i is set from column size-i-1 on (i+1 cells); 'right': row i is
      set before column size-i (size-i cells); any other direction is an error. */
  function SlantShape(size: int, direction: string): (r: Result<Image>)
    ensures r.Ok? <==> direction == "left" || direction == "right"
    ensures r.Ok? ==> IsShape(r.value, Clamp(size), Clamp(size)) && ZeroOne(r.value)
  {
    var n := Clamp(size);
    if direction == "left" then
      Ok(seq(n, i requires 0 <= i < n => seq(n, j requires 0 <= j < n => if j >= n - i - 1 then 1 else 0)))
    else if direction == "right" then
      Ok(seq(n, i requires 0 <= i < n => seq(n, j requires 0 <= j < n => if j < n - i then 1 else 0)))
    else
      Err(InvalidDirection)
  }

  /** Row by row, sets the tail (left) or the head (right) of the row. */
  method Slant(size: int, direction: string) returns (r: Result<Image>)
    ensures r == SlantShape(size, direction)
  {
    var n := Clamp(size);
    var a := new int[n, n]((i, j) => 0);
    if direction == "left" {
      for i := 0 to n
        invariant forall y, x | 0 <= y < n && 0 <= x < n :: a[y, x] == if y < i && x >= n - y - 1 then 1 else 0
      {
        forall x | (if n - i - 1 > 0 then n - i - 1 else 0) <= x < n {
          a[i, x] := 1;
        }
      }
      var se := FromArray(a);
      SameCells(se, SlantShape(size, direction).value, n);
      r := Ok(se);
    } else if direction == "right" {
      for i := 0 to n
        invariant forall y, x | 0 <= y < n && 0 <= x < n :: a[y, x] == if y < i && x < n - y then 1 else 0
      {
        forall x | 0 <= x < (if n < n - i then n else n - i) {
          a[i, x] := 1;
        }
      }
      var se := FromArray(a);
      SameCells(se, SlantShape(size, direction).value, n);
      r := Ok(se);
    } else {
      r := Err(InvalidDirection);
    }
  }

  /** Two n-by-n grids with the same cells are equal. */
  lemma SameCells(a: Image, b: Image, n: nat)
    requires IsShape(a, n, n) && IsShape(b, n, n)
    requires forall i, j | 0 <= i < n && 0 <= j < n :: a[i][j] == b[i][j]
    ensures a == b
  {
    forall i | 0 <= i < n ensures a[i] == b[i] {
    }
  }

  /** The polygon's argument checks: fewer than three sides is an error, and the
      size is raised to at least 3. The rasterisation itself is not modelled. */
  function PolygonSize(size: int, sides: int): (r: Result<nat>)
    ensures r.Err? <==> sides < 3
    ensures r.Err? ==> r.error == TooFewSides
    ensures r.Ok? ==> r.value >= 3 && r.value >= size && (size >= 3 ==> r.value == size)
  {
    if sides < 3 then Err(TooFewSides) else Ok(if size >= 3 then size else 3)
  }

  // ---------------------------------------------------------------------------
  // Properties of the factories

  /** circle(1) is the five-cell plus, the same as a 3-wide cross and a 3-wide diamond. */
  lemma SmallShapesAgree()
    ensures Circle(1) == CrossShape(3) == Diamond(3)
    ensures Circle(1) == [[0, 1, 0], [1, 1, 1], [0, 1, 0]]
  {
    CircleOfOne();
    CrossOfThree();
    DiamondOfThree();
  }

  lemma CircleOfOne()
    ensures Circle(1) == [[0, 1, 0], [1, 1, 1], [0, 1, 0]]
  {
    SameCells(Circle(1), [[0, 1, 0], [1, 1, 1], [0, 1, 0]], 3);
  }

  lemma CrossOfThree()
    ensures CrossShape(3) == [[0, 1, 0], [1, 1, 1], [0, 1, 0]]
  {
    SameCells(CrossShape(3), [[0, 1, 0], [1, 1, 1], [0, 1, 0]], 3);
  }

  lemma DiamondOfThree()
    ensures Diamond(3) == [[0, 1, 0], [1, 1, 1], [0, 1, 0]]
  {
    var plus: Image := [[0, 1, 0], [1, 1, 1], [0, 1, 0]];
    var d := Diamond(3);
    forall i, j | 0 <= i < 3 && 0 <= j < 3 ensures d[i][j] == plus[i][j] {
      assert d[i][j] == if Abs(j - 1) + Abs(i - 1) <= 1 then 1 else 0;
    }
    SameCells(d, plus, 3);
  }

  /** An ellipse whose width and height are both 2r is the circle of radius r. */
  lemma EllipseOfEqualAxes(r: int)
    requires r >= 1
    ensures Ellipse(2 * r, 2 * r) == Circle(r)
  {
    var e, c := Ellipse(2 * r, 2 * r), Circle(r);
    assert EllipseSide(2 * r, 2 * r) == 2 * r + 1;
    forall i, j | 0 <= i < 2 * r + 1 && 0 <= j < 2 * r + 1 ensures e[i][j] == c[i][j] {
      EqualAxesCell(r, i - r, j - r);
    }
    SameCells(e, c, 2 * r + 1);
  }

  /** The ellipse test with both axes 2r is the circle test, scaled by 16 r^2. */
  lemma EqualAxesCell(r: int, y: int, x: int)
    requires r >= 1
    ensures var d := 2 * r;
      (4 * x * x * d * d + 4 * y * y * d * d <= d * d * d * d) <==> (x * x + y * y <= r * r)
  {
    var d := 2 * r;
    assert 4 * x * x * d * d + 4 * y * y * d * d == 16 * (r * r) * (x * x + y * y);
    assert d * d * d * d == 16 * (r * r) * (r * r);
    assert r * r >= 1 by { MulMonotone(r, 1, r); }
    ScaleComparison(x * x + y * y, r * r, 16 * (r * r));
  }

  lemma ScaleComparison(a: int, b: int, k: int)
    requires k >= 1
    ensures k * a <= k * b <==> a <= b
  {
    if a <= b {
      MulMonotone(k, a, b);
    } else {
      MulMonotone(k, b + 1, a);
    }
  }

  /** Every factory shape has its anchor cell (rows/2, columns/2) set, except
      the right slant of even size, whose anchor row ends just before it. */
  lemma FactoryAnchorsAreSet(size: int, width: int, height: int)
    ensures AnchorIsSet(Square(size)) && AnchorIsSet(Circle(size)) && AnchorIsSet(Ellipse(width, height))
    ensures AnchorIsSet(Diamond(size)) && AnchorIsSet(CrossShape(size)) && AnchorIsSet(TShape(size))
    ensures AnchorIsSet(SlantShape(size, "left").value)
    ensures AnchorIsSet(SlantShape(size, "right").value) <==> Clamp(size) % 2 == 1
  {
    RoundAnchors(size);
    EllipseAnchor(width, height);
    LineAnchors(size);
    SlantAnchors(size);
  }

  lemma RoundAnchors(size: int)
    ensures AnchorIsSet(Square(size)) && AnchorIsSet(Circle(size)) && AnchorIsSet(Diamond(size))
  {
    var n := Clamp(size);
    assert Square(size)[n / 2][n / 2] == 1;
    assert Circle(size)[n][n] == 1;
    assert Diamond(size)[n / 2][n / 2] == 1;
  }

  lemma LineAnchors(size: int)
    ensures AnchorIsSet(CrossShape(size)) && AnchorIsSet(TShape(size))
  {
    var n := Clamp(size);
    assert CrossShape(size)[n / 2][n / 2] == 1;
    assert TShape(size)[n / 2][n / 2] == 1;
  }

  lemma SlantAnchors(size: int)
    ensures AnchorIsSet(SlantShape(size, "left").value)
    ensures AnchorIsSet(SlantShape(size, "right").value) <==> Clamp(size) % 2 == 1
  {
    var n := Clamp(size);
    assert SlantShape(size, "left").value[n / 2][n / 2] == 1;
    assert SlantShape(size, "right").value[n / 2][n / 2] == if n % 2 == 1 then 1 else 0;
  }

  lemma EllipseAnchor(width: int, height: int)
    ensures AnchorIsSet(Ellipse(width, height))
  {
    var w, h := Clamp(width), Clamp(height);
    var n := EllipseSide(width, height);
    assert w * w * h * h >= 0 by {
      assert w * w >= 0 && h * h >= 0;
      MulMonotone(w * w, 0, h * h);
    }
    assert Ellipse(width, height)[n / 2][n / 2] == 1;
  }

  /** Row i of the left slant holds i+1 ones and row i of the right slant size-i. */
  lemma SlantRowCounts(size: int, i: nat)
    requires i < Clamp(size)
    ensures CountAtLeast(SlantShape(size, "left").value[i], 1) == i + 1
    ensures CountAtLeast(SlantShape(size, "right").value[i], 1) == Clamp(size) - i
  {
    var n := Clamp(size);
    var left, right := SlantShape(size, "left").value[i], SlantShape(size, "right").value[i];
    OnesFrom(left, n - i - 1);
    OnesBefore(right, n - i);
  }

  /** The left slant is the right slant turned through 180 degrees. */
  lemma SlantsAreHalfTurns(size: int)
    ensures var n := Clamp(size);
      forall i, j | 0 <= i < n && 0 <= j < n ::
        SlantShape(size, "left").value[i][j] == SlantShape(size, "right").value[n - 1 - i][n - 1 - j]
  {
  }

  lemma {:induction false} OnesFrom(row: seq<int>, k: nat)
    requires k <= |row| && forall j | 0 <= j < |row| :: row[j] == if j >= k then 1 else 0
    ensures CountAtLeast(row, 1) == |row| - k
  {
    if row != [] {
      if k > 0 {
        OnesFrom(row[1..], k - 1);
      } else {
        OnesFrom(row[1..], 0);
      }
    }
  }

  lemma {:induction false} OnesBefore(row: seq<int>, k: nat)
    requires k <= |row| && forall j | 0 <= j < |row| :: row[j] == if j < k then 1 else 0
    ensures CountAtLeast(row, 1) == k
  {
    if row != [] {
      if k > 0 {
        OnesBefore(row[1..], k - 1);
      } else {
        OnesBefore(row[1..], 0);
      }
    }
  }

  // ---------------------------------------------------------------------------
  // The dispatcher

  /** A positional argument: a number or a string. */
  datatype Arg = Num(n: int) | Text(s: string)

  /** What the dispatcher returns: a cell mask, or for 'polygon' the checked
      size and number of sides. */
  datatype Element = Mask(cells: Image) | Polygon(size: nat, sides: int)

  function LowerChar(ch: char): char {
    if 'A' <= ch <= 'Z' then (ch as int - 'A' as int + 'a' as int) as char else ch
  }

  function Lower(s: string): (t: string)
    ensures |t| == |s| && forall i | 0 <= i < |s| :: t[i] == LowerChar(s[i])
  {
    seq(|s|, i requires 0 <= i < |s| => LowerChar(s[i]))
  }

  /** Picks the factory by the lower-cased name and passes on the arguments; a
      wrong number or kind of arguments is an error, as is an unknown name. */
  function CustomElement(shape: string, args: seq<Arg>): (r: Result<Element>)
    ensures var name := Lower(shape);
      name !in {"ellipse", "square", "circle", "diamond", "cross", "t", "slant", "polygon"} ==> r == Err(InvalidShape)
  {
    var name := Lower(shape);
    if name == "ellipse" then
      if |args| == 2 && args[0].Num? && args[1].Num? then Ok(Mask(Ellipse(args[0].n, args[1].n))) else Err(BadArguments)
    else if name in {"square", "circle", "diamond", "cross", "t"} then
      if |args| == 1 && args[0].Num? then Ok(Mask(SingleSizeShape(name, args[0].n))) else Err(BadArguments)
    else if name == "slant" then
      if |args| == 1 && args[0].Num? then OkMask(SlantShape(args[0].n, "left"))
      else if |args| == 2 && args[0].Num? then
        if args[1].Text? then OkMask(SlantShape(args[0].n, args[1].s)) else Err(InvalidDirection)
      else Err(BadArguments)
    else if name == "polygon" then
      if |args| == 2 && args[1].Num? then
        if args[1].n < 3 then Err(TooFewSides)
        else if args[0].Num? then Ok(Polygon(PolygonSize(args[0].n, args[1].n).value, args[1].n))
        else Err(BadArguments)
      else Err(BadArguments)
    else
      Err(InvalidShape)
  }

  function SingleSizeShape(name: string, size: int): Image {
    if name == "square" then Square(size)
    else if name == "circle" then Circle(size)
    else if name == "diamond" then Diamond(size)
    else if name == "cross" then CrossShape(size)
    else TShape(size)
  }

  function OkMask(r: Result<Image>): Result<Element> {
    if r.Ok? then Ok(Mask(r.value)) else Err(r.error)
  }

  /** The dispatcher as the source runs it, calling the imperative factories for
      cross, T and slant. */
  method CreateCustom(shape: string, args: seq<Arg>) returns (r: Result<Element>)
    ensures r == CustomElement(shape, args)
  {
    var name := Lower(shape);
    if name == "cross" && |args| == 1 && args[0].Num? {
      var se := Cross(args[0].n);
      r := Ok(Mask(se));
    } else if name == "t" && |args| == 1 && args[0].Num? {
      var se := T(args[0].n);
      r := Ok(Mask(se));
    } else if name == "slant" && |args| == 1 && args[0].Num? {
      var se := Slant(args[0].n, "left");
      r := OkMask(se);
    } else if name == "slant" && |args| == 2 && args[0].Num? && args[1].Text? {
      var se := Slant(args[0].n, args[1].s);
      r := OkMask(se);
    } else {
      r := CustomElement(shape, args);
    }
  }

  /** The name is matched without regard to case. */
  lemma CustomElementIgnoresCase(shape: string, args: seq<Arg>)
    ensures CustomElement(shape, args) == CustomElement(Lower(shape), args)
  {
    var a, b := Lower(shape), Lower(Lower(shape));
    assert a == b by {
      forall i | 0 <= i < |a| ensures a[i] == b[i] {
      }
    }
  }

  /** Some instances: "SqUaRe" is the square; slant defaults to 'left'; a
      polygon needs three sides; an unknown name is refused. */
  lemma CustomElementExamples()
    ensures CustomElement("SqUaRe", [Num(3)]) == Ok(Mask(Square(3)))
    ensures CustomElement("slant", [Num(4)]) == Ok(Mask(SlantShape(4, "left").value))
    ensures CustomElement("Slant", [Num(4), Text("up")]) == Err(InvalidDirection)
    ensures CustomElement("polygon", [Num(1), Num(2)]) == Err(TooFewSides)
    ensures CustomElement("polygon", [Num(1), Num(5)]) == Ok(Polygon(3, 5))
    ensures CustomElement("star", [Num(3)]) == Err(InvalidShape)
    ensures CustomElement("square", []) == Err(BadArguments)
  {
    assert Lower("SqUaRe") == "square";
    assert Lower("slant") == "slant";
    assert Lower("Slant") == "slant";
    assert Lower("polygon") == "polygon";
    assert Lower("star") == "star";
    assert Lower("square") == "square";
  }

  // ---------------------------------------------------------------------------
  // Binary morphology

  /** The binary image: 1 where the sample is above 127, 0 elsewhere. */
  function Binarized(image: Image): (b: Image)
    requires Rect(image)
    ensures IsShape(b, |image|, Width(image))
    ensures forall r, c | 0 <= r < |b| && 0 <= c < |b[r]| :: b[r][c] == if image[r][c] > 127 then 1 else 0
  {
    seq(|image|, r requires 0 <= r < |image| =>
      seq(Width(image), c requires 0 <= c < Width(image) => if image[r][c] > 127 then 1 else 0))
  }

  /** Is (y, x) inside the image and above 127? Outside the image counts as background. */
  predicate Foreground(image: Image, y: int, x: int) {
    0 <= y < |image| && 0 <= x < |image[y]| && image[y][x] > 127
  }

  /** The image position structuring-element cell (i, j) covers when the
      element is anchored at output pixel (r, c). */
  function RowUnder(se: Image, r: int, i: int): int { r + i - |se| / 2 }
  function ColUnder(se: Image, c: int, j: int): int { c + j - Width(se) / 2 }

  /** Every set cell of the element lies on foreground. */
  predicate Fits(image: Image, se: Image, r: int, c: int) {
    forall i, j | 0 <= i < |se| && 0 <= j < |se[i]| && se[i][j] == 1 ::
      Foreground(image, RowUnder(se, r, i), ColUnder(se, c, j))
  }

  /** Some set cell of the element lies on foreground. */
  predicate Hits(image: Image, se: Image, r: int, c: int) {
    exists i, j | 0 <= i < |se| && 0 <= j < |se[i]| && se[i][j] == 1 ::
      Foreground(image, RowUnder(se, r, i), ColUnder(se, c, j))
  }

  /** The zero-padded binary image's windows, one per output pixel. */
  function Window(image: Image, se: Image, r: nat, c: nat): (w: Image)
    requires Rect(image) && Rect(se) && r < |image| && c < Width(image)
    ensures IsShape(w, |se|, Width(se))
    ensures forall i, j | 0 <= i < |se| && 0 <= j < Width(se) ::
      (w[i][j] == 1 <==> Foreground(image, RowUnder(se, r, i), ColUnder(se, c, j))) &&
      (w[i][j] == 0 || w[i][j] == 1)
  {
    var b := Binarized(image);
    var padded := ZeroPad(b, |se| / 2, Width(se) / 2);
    var w := SubGrid(padded, r, c, |se|, Width(se));
    forall i, j | 0 <= i < |se| && 0 <= j < Width(se)
      ensures (w[i][j] == 1 <==> Foreground(image, RowUnder(se, r, i), ColUnder(se, c, j))) &&
        (w[i][j] == 0 || w[i][j] == 1)
    {
      assert w[i][j] == At(b, RowUnder(se, r, i), ColUnder(se, c, j));
    }
    w
  }

  /** All set cells of the element meet 1 in the window (np.all over the mask). */
  predicate AllHit(w: Image, se: Image)
    requires Rect(se) && IsShape(w, |se|, Width(se))
  {
    forall i, j | 0 <= i < |se| && 0 <= j < Width(se) && se[i][j] == 1 :: w[i][j] == 1
  }

  /** Some set cell of the element meets 1 in the window (np.any over the overlap). */
  predicate AnyHit(w: Image, se: Image)
    requires Rect(se) && IsShape(w, |se|, Width(se))
  {
    exists i, j | 0 <= i < |se| && 0 <= j < Width(se) && se[i][j] == 1 :: w[i][j] == 1
  }

  lemma WindowFits(image: Image, se: Image, r: nat, c: nat)
    requires Rect(image) && Rect(se) && r < |image| && c < Width(image)
    ensures AllHit(Window(image, se, r, c), se) <==> Fits(image, se, r, c)
  {
    var w := Window(image, se, r, c);
    if AllHit(w, se) {
      forall i, j | 0 <= i < |se| && 0 <= j < |se[i]| && se[i][j] == 1
        ensures Foreground(image, RowUnder(se, r, i), ColUnder(se, c, j))
      {
        assert w[i][j] == 1;
      }
    }
    if Fits(image, se, r, c) {
      forall i, j | 0 <= i < |se| && 0 <= j < Width(se) && se[i][j] == 1 ensures w[i][j] == 1 {
        assert Foreground(image, RowUnder(se, r, i), ColUnder(se, c, j));
      }
    }
  }

  lemma WindowHits(image: Image, se: Image, r: nat, c: nat)
    requires Rect(image) && Rect(se) && r < |image| && c < Width(image)
    ensures AnyHit(Window(image, se, r, c), se) <==> Hits(image, se, r, c)
  {
    var w := Window(image, se, r, c);
    if Hits(image, se, r, c) {
      var i, j :| 0 <= i < |se| && 0 <= j < |se[i]| && se[i][j] == 1 &&
        Foreground(image, RowUnder(se, r, i), ColUnder(se, c, j));
      assert w[i][j] == 1;
    }
    if AnyHit(w, se) {
      var i, j :| 0 <= i < |se| && 0 <= j < Width(se) && se[i][j] == 1 && w[i][j] == 1;
      assert Foreground(image, RowUnder(se, r, i), ColUnder(se, c, j));
    }
  }

  /** Output pixel (r, c) is 255 iff every set element cell, anchored at
      (r, c), lands on foreground (> 127); cells outside the image are background. */
  function Erosion(image: Image, se: Image): (out: Image)
    requires Rect(image) && Rect(se)
    ensures IsShape(out, |image|, Width(image)) && BinaryValued(out)
    ensures forall r, c | 0 <= r < |out| && 0 <= c < |out[r]| :: out[r][c] == 255 <==> Fits(image, se, r, c)
  {
    var out := seq(|image|, r requires 0 <= r < |image| =>
      seq(Width(image), c requires 0 <= c < Width(image) =>
        if AllHit(Window(image, se, r, c), se) then 255 else 0));
    assert forall r, c | 0 <= r < |out| && 0 <= c < |out[r]| :: out[r][c] == 255 <==> Fits(image, se, r, c) by {
      forall r, c | 0 <= r < |out| && 0 <= c < |out[r]| ensures out[r][c] == 255 <==> Fits(image, se, r, c) {
        WindowFits(image, se, r, c);
      }
    }
    out
  }

  /** Output pixel (r, c) is 255 iff some set element cell, anchored at (r, c),
      lands on foreground. The element is not reflected. */
  function Dilation(image: Image, se: Image): (out: Image)
    requires Rect(image) && Rect(se)
    ensures IsShape(out, |image|, Width(image)) && BinaryValued(out)
    ensures forall r, c | 0 <= r < |out| && 0 <= c < |out[r]| :: out[r][c] == 255 <==> Hits(image, se, r, c)
  {
    var out := seq(|image|, r requires 0 <= r < |image| =>
      seq(Width(image), c requires 0 <= c < Width(image) =>
        if AnyHit(Window(image, se, r, c), se) then 255 else 0));
    assert forall r, c | 0 <= r < |out| && 0 <= c < |out[r]| :: out[r][c] == 255 <==> Hits(image, se, r, c) by {
      forall r, c | 0 <= r < |out| && 0 <= c < |out[r]| ensures out[r][c] == 255 <==> Hits(image, se, r, c) {
        WindowHits(image, se, r, c);
      }
    }
    out
  }

  /** Erosion followed by dilation with the same element. */
  function Opening(image: Image, se: Image): (out: Image)
    requires Rect(image) && Rect(se)
    ensures IsShape(out, |image|, Width(image)) && BinaryValued(out)
  {
    Dilation(Erosion(image, se), se)
  }

  /** Dilation followed by erosion with the same element. */
  function Closing(image: Image, se: Image): (out: Image)
    requires Rect(image) && Rect(se)
    ensures IsShape(out, |image|, Width(image)) && BinaryValued(out)
  {
    Erosion(Dilation(image, se), se)
  }

  /** The foreground of a is contained in that of b. */
  predicate Within(a: Image, b: Image) {
    forall r, c | 0 <= r < |a| && 0 <= c < |a[r]| :: a[r][c] > 127 ==> Foreground(b, r, c)
  }

  /** With the anchor cell set, erosion only removes foreground and dilation only adds it. */
  lemma AnchoredErosionShrinks(image: Image, se: Image)
    requires Rect(image) && Rect(se) && AnchorIsSet(se)
    ensures Within(Erosion(image, se), image)
  {
    var out := Erosion(image, se);
    forall r, c | 0 <= r < |out| && 0 <= c < |out[r]| && out[r][c] > 127 ensures Foreground(image, r, c) {
      var i, j := |se| / 2, Width(se) / 2;
      assert RowUnder(se, r, i) == r && ColUnder(se, c, j) == c;
    }
  }

  lemma AnchoredDilationGrows(image: Image, se: Image)
    requires Rect(image) && Rect(se) && AnchorIsSet(se)
    ensures Within(image, Dilation(image, se))
  {
    var out := Dilation(image, se);
    forall r, c | 0 <= r < |image| && 0 <= c < |image[r]| && image[r][c] > 127 ensures Foreground(out, r, c) {
      var i, j := |se| / 2, Width(se) / 2;
      assert RowUnder(se, r, i) == r && ColUnder(se, c, j) == c;
      assert Hits(image, se, r, c);
    }
  }

  /** More foreground in, more foreground out, for both operations. */
  lemma ErosionIsMonotone(a: Image, b: Image, se: Image)
    requires Rect(a) && Rect(b) && Rect(se) && |a| == |b| && Width(a) == Width(b) && Within(a, b)
    ensures Within(Erosion(a, se), Erosion(b, se))
  {
    var ea, eb := Erosion(a, se), Erosion(b, se);
    forall r, c | 0 <= r < |ea| && 0 <= c < |ea[r]| && ea[r][c] > 127 ensures Foreground(eb, r, c) {
      assert Fits(a, se, r, c);
      assert Fits(b, se, r, c) by {
        forall i, j | 0 <= i < |se| && 0 <= j < |se[i]| && se[i][j] == 1
          ensures Foreground(b, RowUnder(se, r, i), ColUnder(se, c, j))
        {
          assert Foreground(a, RowUnder(se, r, i), ColUnder(se, c, j));
        }
      }
    }
  }

  lemma DilationIsMonotone(a: Image, b: Image, se: Image)
    requires Rect(a) && Rect(b) && Rect(se) && |a| == |b| && Width(a) == Width(b) && Within(a, b)
    ensures Within(Dilation(a, se), Dilation(b, se))
  {
    var da, db := Dilation(a, se), Dilation(b, se);
    forall r, c | 0 <= r < |da| && 0 <= c < |da[r]| && da[r][c] > 127 ensures Foreground(db, r, c) {
      assert Hits(a, se, r, c);
      var i, j :| 0 <= i < |se| && 0 <= j < |se[i]| && se[i][j] == 1 &&
        Foreground(a, RowUnder(se, r, i), ColUnder(se, c, j));
      assert Foreground(b, RowUnder(se, r, i), ColUnder(se, c, j));
    }
  }

  /** With the anchor set, opening and closing both lie between the erosion and
      the dilation of the image. */
  lemma OpeningAndClosingAreBetween(image: Image, se: Image)
    requires Rect(image) && Rect(se) && AnchorIsSet(se)
    ensures Within(Erosion(image, se), Opening(image, se)) && Within(Opening(image, se), Dilation(image, se))
    ensures Within(Erosion(image, se), Closing(image, se)) && Within(Closing(image, se), Dilation(image, se))
  {
    var e, d := Erosion(image, se), Dilation(image, se);
    AnchoredDilationGrows(e, se);
    AnchoredErosionShrinks(image, se);
    DilationIsMonotone(e, image, se);
    AnchoredDilationGrows(image, se);
    ErosionIsMonotone(image, d, se);
    AnchoredErosionShrinks(d, se);
  }

  /** With the one-cell element [[1]] both operations are thresholding at 127. */
  lemma UnitElementThresholds(image: Image)
    requires Rect(image)
    ensures forall r, c | 0 <= r < |image| && 0 <= c < Width(image) ::
      Erosion(image, [[1]])[r][c] == Dilation(image, [[1]])[r][c] == if image[r][c] > 127 then 255 else 0
  {
    forall r, c | 0 <= r < |image| && 0 <= c < Width(image)
      ensures Erosion(image, [[1]])[r][c] == Dilation(image, [[1]])[r][c] == if image[r][c] > 127 then 255 else 0
    {
      UnitElementAt(image, r, c);
    }
  }

  lemma UnitElementAt(image: Image, r: nat, c: nat)
    requires Rect(image) && r < |image| && c < Width(image)
    ensures Fits(image, [[1]], r, c) <==> image[r][c] > 127
    ensures Hits(image, [[1]], r, c) <==> image[r][c] > 127
  {
    var se: Image := [[1]];
    assert RowUnder(se, r, 0) == r && ColUnder(se, c, 0) == c;
    if image[r][c] > 127 {
      assert Hits(image, se, r, c);
    } else {
      assert !Foreground(image, RowUnder(se, r, 0), ColUnder(se, c, 0));
    }
  }
}
