/** Turning a detection into the pixel rectangle that gets blacked out, and
    which pixels a numpy slice `image[y1:y2, x1:x2]` reaches. */
module Geometry {
  import opened Labels

  /** Python's `int(x)` on a float: the integer part, rounding toward zero. */
  function Trunc(x: real): (r: int)
    ensures x >= 0.0 ==> 0 <= r && r as real <= x < r as real + 1.0
    ensures x < 0.0 ==> r <= 0 && r as real - 1.0 < x <= r as real
  {
    if x >= 0.0 then x.Floor else -((-x).Floor)
  }

  /** Python's `a // b` for a positive divisor: the largest q with b * q <= a. */
  function FloorDiv(a: int, b: int): (q: int)
    requires b > 0
    ensures b * q <= a < b * q + b
  {
    a / b
  }

  /** Corners of a box in pixels; x counts columns, y counts rows. The upper
      bounds are exclusive, as slice stops are. */
  datatype Box = Box(x1: int, y1: int, x2: int, y2: int)

  /** Pixel scale of a normalised coordinate: `int(v * size)`. */
  function ToPixels(v: real, size: nat): int {
    Trunc(v * size as real)
  }

  /** The interval `[center - size // 2, center + size // 2]` one axis of a box spans. */
  function Extent(center: int, size: int): (int, int) {
    (center - FloorDiv(size, 2), center + FloorDiv(size, 2))
  }

  /** The interval is symmetric about its centre. For a non-negative size it
      is ordered and as long as the size rounded down to an even number (one
      pixel short of an odd size); for a negative size its ends come out
      reversed. */
  lemma ExtentAroundCentre(center: int, size: int)
    ensures var (lo, hi) := Extent(center, size);
            center - lo == hi - center &&
            (size >= 0 ==> lo <= hi && hi - lo <= size <= hi - lo + 1) &&
            (size < 0 ==> hi < lo)
  {
    var q := FloorDiv(size, 2);
    assert 2 * q <= size < 2 * q + 2;
  }

  /** The box a detection stands for in an image of `height` rows and `width`
      columns: centre and size scaled to pixels and truncated, then half the
      size (floor-divided) on each side of the centre. The class id is not
      used. */
  function BoxOf(d: Detection, height: nat, width: nat): Box {
    var (x1, x2) := Extent(ToPixels(d.xCenter, width), ToPixels(d.width, width));
    var (y1, y2) := Extent(ToPixels(d.yCenter, height), ToPixels(d.height, height));
    Box(x1, y1, x2, y2)
  }

  /** The box lies symmetrically about the detection's centre in pixels. Along
      an axis whose size in pixels is non-negative its corners are ordered and
      span that size rounded down to an even number; along one whose size is
      negative they come out reversed, and the slice is empty. */
  lemma BoxAroundCentre(d: Detection, height: nat, width: nat)
    ensures var b := BoxOf(d, height, width);
            var xc, w := ToPixels(d.xCenter, width), ToPixels(d.width, width);
            b.x2 - xc == xc - b.x1 &&
            (w >= 0 ==> b.x1 <= b.x2 && b.x2 - b.x1 <= w <= b.x2 - b.x1 + 1) &&
            (w < 0 ==> b.x2 < b.x1)
    ensures var b := BoxOf(d, height, width);
            var yc, h := ToPixels(d.yCenter, height), ToPixels(d.height, height);
            b.y2 - yc == yc - b.y1 &&
            (h >= 0 ==> b.y1 <= b.y2 && b.y2 - b.y1 <= h <= b.y2 - b.y1 + 1) &&
            (h < 0 ==> b.y2 < b.y1)
  {
    ExtentAroundCentre(ToPixels(d.xCenter, width), ToPixels(d.width, width));
    ExtentAroundCentre(ToPixels(d.yCenter, height), ToPixels(d.height, height));
  }

  /** A normalised coordinate in [0, 1] scales to a pixel count between 0 and
      the axis length, never more than one pixel short of the exact product. */
  lemma ToPixelsWithinAxis(v: real, size: nat)
    requires 0.0 <= v <= 1.0
    ensures var r := ToPixels(v, size);
            0 <= r <= size && r as real <= v * size as real < r as real + 1.0
  {
    var n := size as real;
    NonNegativeProduct(v, n);
    NonNegativeProduct(1.0 - v, n);
    assert v * n == n - (1.0 - v) * n;
  }

  /** The product of two non-negative reals is non-negative. */
  lemma NonNegativeProduct(a: real, b: real)
    requires a >= 0.0 && b >= 0.0
    ensures a * b >= 0.0
  {
  }

  /** The class id of a detection plays no part in its box. */
  lemma BoxIgnoresClass(d: Detection, classId: real, height: nat, width: nat)
    ensures BoxOf(d.(classId := classId), height, width) == BoxOf(d, height, width)
  {
  }

  /** One bound of a slice over an axis of length `n`, as numpy resolves it:
      a negative bound has `n` added, and what is still outside [0, n] is
      clamped to the nearer end. */
  function SliceBound(i: int, n: nat): (r: nat)
    ensures r <= n
  {
    if i < 0 then (if i + n < 0 then 0 else i + n)
    else if i > n then n
    else i
  }

  /** Index `k` of an axis of length `n` is reached by the slice `[start:stop]`. */
  predicate InSlice(k: int, start: int, stop: int, n: nat) {
    SliceBound(start, n) <= k < SliceBound(stop, n)
  }

  /** Position `k` of an axis of length `n` also answers to the name `k - n`;
      a non-negative bound is compared with the first name, a negative one
      with the second. */
  predicate AtOrAfter(k: int, start: int, n: nat) {
    if start >= 0 then k >= start else k - n >= start
  }

  predicate Before(k: int, stop: int, n: nat) {
    if stop >= 0 then k < stop else k - n < stop
  }

  /** A slice reaches exactly the positions of the axis that lie at or after
      its start and before its stop, each bound read from the front when it
      is non-negative and from the back when it is negative. In particular it
      never reaches outside the axis. */
  lemma SliceSelects(k: int, start: int, stop: int, n: nat)
    ensures InSlice(k, start, stop, n) <==> 0 <= k < n && AtOrAfter(k, start, n) && Before(k, stop, n)
  {
  }

  /** The pixels `image[y1:y2, x1:x2]` reaches in an image of `height` rows
      and `width` columns. */
  predicate InRegion(b: Box, height: nat, width: nat, row: int, col: int) {
    InSlice(row, b.y1, b.y2, height) && InSlice(col, b.x1, b.x2, width)
  }

  /** A slice bound clamped into [0, n] without counting negative values from
      the end: the reading under which a box that sticks out of the image is
      cut off at the border. */
  function ClampBound(i: int, n: nat): (r: nat)
    ensures r <= n
  {
    if i < 0 then 0 else if i > n then n else i
  }

  /** The part of [start, stop) that lies on the axis, once the bounds are clamped. */
  predicate InClampedSlice(k: int, start: int, stop: int, n: nat) {
    ClampBound(start, n) <= k < ClampBound(stop, n)
  }

  /** Clamping selects exactly the intersection of [start, stop) with the axis. */
  lemma ClampedSliceIsIntersection(k: int, start: int, stop: int, n: nat)
    ensures InClampedSlice(k, start, stop, n) <==> 0 <= k < n && start <= k < stop
  {
  }

  /** The pixels a box covers once it is cut off at the image border. */
  predicate InClampedRegion(b: Box, height: nat, width: nat, row: int, col: int) {
    InClampedSlice(row, b.y1, b.y2, height) && InClampedSlice(col, b.x1, b.x2, width)
  }

  /** With no negative bound the two readings select the same pixels: the
      difference lies only in boxes that cross the top or left border. */
  lemma RegionsAgreeInsideImage(b: Box, height: nat, width: nat, row: int, col: int)
    requires b.x1 >= 0 && b.x2 >= 0 && b.y1 >= 0 && b.y2 >= 0
    ensures InRegion(b, height, width, row, col) <==> InClampedRegion(b, height, width, row, col)
  {
  }

  /** A detection centred 5 columns from the left border of a 100 x 100 image
      and 20 columns wide becomes the box [-5, 15) on the x axis; numpy reads
      `[-5:15]` as `[95:15]`, which is empty, so none of the box is blacked
      out, while the clamped reading covers columns 0 to 14. */
  lemma LeftEdgeBoxIsNotRedacted()
    ensures var b := BoxOf(Detection(0.0, 0.05, 0.5, 0.2, 0.2), 100, 100);
            b == Box(-5, 40, 15, 60) &&
            (forall row, col :: !InRegion(b, 100, 100, row, col)) &&
            (forall row, col :: 40 <= row < 60 && 0 <= col < 15 ==> InClampedRegion(b, 100, 100, row, col))
  {
    var d := Detection(0.0, 0.05, 0.5, 0.2, 0.2);
    assert d.xCenter * 100 as real == 5.0;
    assert d.width * 100 as real == 20.0;
    assert d.yCenter * 100 as real == 50.0;
    assert d.height * 100 as real == 20.0;
    assert SliceBound(-5, 100) == 95;
  }
}
