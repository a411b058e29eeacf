/**
 * The integer parts of the photomosaic script (photomosaic_error.py): the
 * nearest-colour search, the crop boxes that cut the target image into an
 * m by n grid, and the placement of tiles on the output canvas. Images are
 * reduced to their sizes; the pixel work of the imaging library is not
 * modelled.
 */
module Mosaic {
  import opened Results

  /** An average colour, as getAverageRGB returns it. */
  datatype Rgb = Rgb(r: int, g: int, b: int)

  /** A crop box: left, upper, right, lower. */
  datatype Box = Box(left: int, upper: int, right: int, lower: int)

  /** The size of an image in pixels. */
  datatype Size = Size(width: nat, height: nat)

  /** A paste position on the canvas. */
  datatype Point = Point(x: int, y: int)

  /** The output of createImageGrid: the canvas size and where each image is pasted. */
  datatype Canvas = Canvas(size: Size, offsets: seq<Point>)

  datatype MosaicError =
    | ZeroDivision   // a grid dimension of 0 divides the image size
    | SizeMismatch   // the assertion m * n == len(images) fails
    | EmptyMax       // max() of an empty list

  /** The running minimum of getBestMatchIndex: float("inf") until the first colour is seen. */
  datatype Bound = Infinite | Finite(value: int)

  predicate Below(d: int, b: Bound) {
    b.Infinite? || d < b.value
  }

  lemma SquareNonNegative(x: int)
    ensures x * x >= 0
  {
    if x < 0 {
      assert x * x == (-x) * (-x);
    }
  }

  /** The squared distance between two colours seen as points in space. */
  function Distance(val: Rgb, target: Rgb): (d: int)
    ensures d >= 0
    ensures d == 0 <==> val == target
  {
    var dr, dg, db := val.r - target.r, val.g - target.g, val.b - target.b;
    SquareNonNegative(dr);
    SquareNonNegative(dg);
    SquareNonNegative(db);
    assert dr * dr == 0 <==> dr == 0;
    assert dg * dg == 0 <==> dg == 0;
    assert db * db == 0 <==> db == 0;
    dr * dr + dg * dg + db * db
  }

  /** k is the first index of a colour nearest to target. */
  predicate IsFirstNearest(target: Rgb, avgs: seq<Rgb>, k: nat) {
    && k < |avgs|
    && (forall j | 0 <= j < |avgs| :: Distance(avgs[k], target) <= Distance(avgs[j], target))
    && (forall j | 0 <= j < k :: Distance(avgs[j], target) > Distance(avgs[k], target))
  }

  /**
   * getBestMatchIndex: the index of the colour nearest to the target, the
   * first such on ties (the comparison is strict), and 0 for an empty list.
   */
  method GetBestMatchIndex(target: Rgb, avgs: seq<Rgb>) returns (minIndex: nat)
    ensures |avgs| == 0 ==> minIndex == 0
    ensures |avgs| > 0 ==> IsFirstNearest(target, avgs, minIndex)
  {
    var index := 0;
    minIndex := 0;
    var minDist := Infinite;
    while index < |avgs|
      invariant 0 <= index <= |avgs|
      invariant minDist.Infinite? <==> index == 0
      invariant index == 0 ==> minIndex == 0
      invariant index > 0 ==> minIndex < index
      invariant minDist.Finite? ==> minDist.value == Distance(avgs[minIndex], target)
      invariant forall j | 0 <= j < index :: Distance(avgs[minIndex], target) <= Distance(avgs[j], target)
      invariant forall j | 0 <= j < minIndex :: Distance(avgs[j], target) > Distance(avgs[minIndex], target)
    {
      var dist := Distance(avgs[index], target);
      if Below(dist, minDist) {
        minDist := Finite(dist);
        minIndex := index;
      }
      index := index + 1;
    }
  }

  /** At most one index is the first nearest, so the search's answer is determined. */
  lemma FirstNearestIsUnique(target: Rgb, avgs: seq<Rgb>, k: nat, l: nat)
    requires IsFirstNearest(target, avgs, k) && IsFirstNearest(target, avgs, l)
    ensures k == l
  {
    var dk, dl := Distance(avgs[k], target), Distance(avgs[l], target);
    assert k < l ==> dk > dl;
    assert l < k ==> dl > dk;
  }

  // ---------------------------------------------------------------------
  // Grid arithmetic

  lemma MulAtLeast(a: int, n: int)
    requires a >= 1 && n >= 0
    ensures a * n >= n
  {
    assert a * n == (a - 1) * n + n;
    assert (a - 1) * n >= 0;
  }

  lemma MulMonotone(a: int, b: int, n: int)
    requires 0 <= a <= b && n >= 0
    ensures a * n <= b * n
  {
    assert b * n - a * n == (b - a) * n;
    assert (b - a) * n >= 0;
  }

  /** Row-major position j * n + i splits back into row j and column i. */
  lemma DivModOfIndex(j: nat, i: nat, n: nat)
    requires i < n
    ensures (j * n + i) / n == j
    ensures (j * n + i) % n == i
  {
    var k := j * n + i;
    var q, r := k / n, k % n;
    assert q * n + r == j * n + i;
    assert (q - j) * n == i - r;
    assert (j - q) * n == r - i;
    if q > j {
      MulAtLeast(q - j, n);
    } else if q < j {
      MulAtLeast(j - q, n);
    }
  }

  /** Index k of a list of m * n entries lies in row k / n < m. */
  lemma RowInRange(k: nat, m: nat, n: nat)
    requires n > 0 && k < m * n
    ensures k / n < m
  {
    assert k == (k / n) * n + k % n;
    if k / n >= m {
      MulMonotone(m, k / n, n);
    }
  }

  /** The crop box of grid cell (row j, column i) for cells w wide and h high. */
  function BoxAt(i: nat, j: nat, w: nat, h: nat): Box {
    Box(i * w, j * h, (i + 1) * w, (j + 1) * h)
  }

  /** The box lies within a width by height image and is not inverted. */
  predicate InsideImage(b: Box, width: nat, height: nat) {
    0 <= b.left <= b.right <= width && 0 <= b.upper <= b.lower <= height
  }

  /** The box of column i < n, row j < m lies inside the image. */
  lemma BoxInside(i: nat, j: nat, m: nat, n: nat, width: nat, height: nat)
    requires i < n && j < m
    ensures InsideImage(BoxAt(i, j, width / n, height / m), width, height)
  {
    var w, h := width / n, height / m;
    MulMonotone(i, i + 1, w);
    MulMonotone(i + 1, n, w);
    MulMonotone(j, j + 1, h);
    MulMonotone(j + 1, m, h);
    assert width == n * w + width % n;
    assert height == m * h + height % m;
  }

  /** Boxes listed by index k = row * n + column, in the form the loop builds them. */
  predicate RowMajor(boxes: seq<Box>, n: nat, w: nat, h: nat)
    requires n > 0
  {
    forall k | 0 <= k < |boxes| :: boxes[k] == BoxAt(k % n, k / n, w, h)
  }

  /** A row-major list of m * n boxes holds the box of row j, column i at j * n + i. */
  lemma RowMajorIndex(boxes: seq<Box>, m: nat, n: nat, w: nat, h: nat)
    requires n > 0 && |boxes| == m * n && RowMajor(boxes, n, w, h)
    ensures forall j, i | 0 <= j < m && 0 <= i < n ::
      && j * n + i < |boxes|
      && boxes[j * n + i] == BoxAt(i, j, w, h)
  {
    forall j, i | 0 <= j < m && 0 <= i < n
      ensures j * n + i < |boxes| && boxes[j * n + i] == BoxAt(i, j, w, h)
    {
      DivModOfIndex(j, i, n);
      MulMonotone(j + 1, m, n);
    }
  }

  /** Every box of a row-major list of m * n boxes of an m by n grid lies inside the image. */
  lemma RowMajorInside(boxes: seq<Box>, m: nat, n: nat, width: nat, height: nat)
    requires n > 0 && m > 0 && |boxes| == m * n
    requires RowMajor(boxes, n, width / n, height / m)
    ensures forall k | 0 <= k < |boxes| :: InsideImage(boxes[k], width, height)
  {
    forall k | 0 <= k < |boxes|
      ensures InsideImage(boxes[k], width, height)
    {
      IndexBoxInside(k, m, n, width, height);
    }
  }

  /** The box of index k < m * n, in row k / n and column k % n, lies inside the image. */
  lemma IndexBoxInside(k: nat, m: nat, n: nat, width: nat, height: nat)
    requires n > 0 && k < m * n
    ensures InsideImage(BoxAt(k % n, k / n, width / n, height / m), width, height)
  {
    var i, j := k % n, k / n;
    RowInRange(k, m, n);
    BoxInside(i, j, m, n, width, height);
  }

  /** Appending the box of row j, column i at index j * n + i keeps the list row-major. */
  lemma AppendKeepsRowMajor(boxes: seq<Box>, j: nat, i: nat, n: nat, w: nat, h: nat)
    requires i < n && |boxes| == j * n + i && RowMajor(boxes, n, w, h)
    ensures RowMajor(boxes + [BoxAt(i, j, w, h)], n, w, h)
  {
    DivModOfIndex(j, i, n);
  }

  /**
   * splitImage: the crop boxes of an m by n grid over a width by height
   * image, row by row; a zero grid dimension divides by zero.
   */
  method SplitImage(width: nat, height: nat, m: nat, n: nat)
    returns (r: Result<seq<Box>, MosaicError>)
    ensures r.Err? <==> m == 0 || n == 0
    ensures r.Err? ==> r.error == ZeroDivision
    ensures r.Ok? ==> |r.value| == m * n
    ensures r.Ok? ==> forall j, i | 0 <= j < m && 0 <= i < n ::
      && j * n + i < |r.value|
      && r.value[j * n + i] == BoxAt(i, j, width / n, height / m)
    ensures r.Ok? ==> forall k | 0 <= k < |r.value| :: InsideImage(r.value[k], width, height)
  {
    if m == 0 || n == 0 {
      return Err(ZeroDivision);
    }
    var w, h := width / n, height / m;
    var imgs: seq<Box> := [];
    var j := 0;
    while j < m
      invariant 0 <= j <= m
      invariant |imgs| == j * n
      invariant RowMajor(imgs, n, w, h)
    {
      var i := 0;
      while i < n
        invariant 0 <= i <= n
        invariant |imgs| == j * n + i
        invariant RowMajor(imgs, n, w, h)
      {
        AppendKeepsRowMajor(imgs, j, i, n, w, h);
        imgs := imgs + [BoxAt(i, j, w, h)];
        i := i + 1;
      }
      j := j + 1;
    }
    RowMajorIndex(imgs, m, n, w, h);
    RowMajorInside(imgs, m, n, width, height);
    r := Ok(imgs);
  }

  /**
   * The (row, column) createImageGrid pastes image index into, for n columns:
   * the row-major position, with the column below n.
   */
  function CellOf(index: nat, n: nat): (c: (nat, nat))
    requires n > 0
    ensures c.1 < n && index == c.0 * n + c.1
  {
    var row := index / n;
    (row, index - n * row)
  }

  /** Every index below m * n lands in the m by n grid. */
  lemma CellOfInGrid(index: nat, m: nat, n: nat)
    requires n > 0 && index < m * n
    ensures CellOf(index, n).0 < m && CellOf(index, n).1 < n
  {
    RowInRange(index, m, n);
  }

  /** Every cell of the m by n grid is hit by the index row * n + col. */
  lemma CellOfHitsEveryCell(row: nat, col: nat, m: nat, n: nat)
    requires row < m && col < n
    ensures row * n + col < m * n
    ensures CellOf(row * n + col, n) == (row, col)
  {
    DivModOfIndex(row, col, n);
    MulMonotone(row + 1, m, n);
  }

  /** No two indices share a cell. */
  lemma CellOfInjective(a: nat, b: nat, n: nat)
    requires n > 0 && CellOf(a, n) == CellOf(b, n)
    ensures a == b
  {
  }

  /** The widest width in a nonempty list of sizes. */
  function MaxWidth(sizes: seq<Size>): (w: nat)
    requires |sizes| > 0
    ensures forall k | 0 <= k < |sizes| :: sizes[k].width <= w
    ensures exists k | 0 <= k < |sizes| :: sizes[k].width == w
  {
    if |sizes| == 1 then sizes[0].width
    else
      var rest := MaxWidth(sizes[1..]);
      assert forall k | 1 <= k < |sizes| :: sizes[k] == sizes[1..][k - 1];
      if sizes[0].width >= rest then sizes[0].width else rest
  }

  /** The tallest height in a nonempty list of sizes. */
  function MaxHeight(sizes: seq<Size>): (h: nat)
    requires |sizes| > 0
    ensures forall k | 0 <= k < |sizes| :: sizes[k].height <= h
    ensures exists k | 0 <= k < |sizes| :: sizes[k].height == h
  {
    if |sizes| == 1 then sizes[0].height
    else
      var rest := MaxHeight(sizes[1..]);
      assert forall k | 1 <= k < |sizes| :: sizes[k] == sizes[1..][k - 1];
      if sizes[0].height >= rest then sizes[0].height else rest
  }

  /** The paste offset of image index: the corner of its cell, cells as large as the largest image. */
  function OffsetOf(index: nat, n: nat, w: nat, h: nat): (p: Point)
    requires n > 0
    ensures p == Point((index % n) * w, (index / n) * h)
  {
    var (row, col) := CellOf(index, n);
    Point(col * w, row * h)
  }

  /** An image of size s pasted at p lies within the canvas. */
  predicate PastedInside(p: Point, s: Size, canvas: Size) {
    0 <= p.x && p.x + s.width <= canvas.width && 0 <= p.y && p.y + s.height <= canvas.height
  }

  lemma OffsetInside(index: nat, m: nat, n: nat, s: Size, w: nat, h: nat)
    requires n > 0 && index < m * n && s.width <= w && s.height <= h
    ensures PastedInside(OffsetOf(index, n, w, h), s, Size(n * w, m * h))
  {
    CellOfInGrid(index, m, n);
    var (row, col) := CellOf(index, n);
    MulMonotone(col + 1, n, w);
    MulMonotone(row + 1, m, h);
  }

  /** Every pasted image lies inside an n by m canvas of the largest cells. */
  lemma AllPastedInside(sizes: seq<Size>, m: nat, n: nat)
    requires n > 0 && |sizes| == m * n && |sizes| > 0
    ensures forall k | 0 <= k < |sizes| ::
      PastedInside(OffsetOf(k, n, MaxWidth(sizes), MaxHeight(sizes)), sizes[k],
        Size(n * MaxWidth(sizes), m * MaxHeight(sizes)))
  {
    forall k | 0 <= k < |sizes|
      ensures PastedInside(OffsetOf(k, n, MaxWidth(sizes), MaxHeight(sizes)), sizes[k],
        Size(n * MaxWidth(sizes), m * MaxHeight(sizes)))
    {
      OffsetInside(k, m, n, sizes[k], MaxWidth(sizes), MaxHeight(sizes));
    }
  }

  /** The paste offsets of count images in a grid n cells wide, cells w by h. */
  function Offsets(count: nat, n: nat, w: nat, h: nat): (ps: seq<Point>)
    requires n > 0
    ensures |ps| == count
    ensures forall k | 0 <= k < count :: ps[k] == OffsetOf(k, n, w, h)
  {
    seq(count, k requires 0 <= k < count => OffsetOf(k, n, w, h))
  }

  /**
   * createImageGrid: the list must hold exactly m * n images (asserted) and
   * at least one (max of an empty list fails); the canvas is n cells wide
   * and m cells high, each cell as large as the largest image, and image k
   * is pasted at the corner of cell (k div n, k mod n), inside the canvas.
   */
  function CreateImageGrid(sizes: seq<Size>, m: nat, n: nat): (r: Result<Canvas, MosaicError>)
    ensures r.Err? <==> m * n != |sizes| || |sizes| == 0
    ensures r.Err? && m * n != |sizes| ==> r.error == SizeMismatch
    ensures r.Err? && m * n == |sizes| ==> r.error == EmptyMax
    ensures r.Ok? ==> n > 0 && |r.value.offsets| == |sizes|
    ensures r.Ok? ==> r.value.size == Size(n * MaxWidth(sizes), m * MaxHeight(sizes))
    ensures r.Ok? ==> forall k | 0 <= k < |sizes| ::
      r.value.offsets[k] == Point((k % n) * MaxWidth(sizes), (k / n) * MaxHeight(sizes))
    ensures r.Ok? ==> forall k | 0 <= k < |sizes| ::
      PastedInside(r.value.offsets[k], sizes[k], r.value.size)
  {
    if m * n != |sizes| then Err(SizeMismatch)
    else if |sizes| == 0 then Err(EmptyMax)
    else
      assert n > 0;
      var w, h := MaxWidth(sizes), MaxHeight(sizes);
      AllPastedInside(sizes, m, n);
      Ok(Canvas(Size(n * w, m * h), Offsets(|sizes|, n, w, h)))
  }
}
