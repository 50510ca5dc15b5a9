/** Normalized rectangles: reading them, their overlap, and the crop-to-frame projection. */
module Geometry {
  import opened Prelude

  datatype Box = Box(x: real, y: real, width: real, height: real)

  datatype Rect = Rect(left: real, top: real, right: real, bottom: real)

  /** One coordinate of stored geometry: missing, a number, or something `float` refuses. */
  datatype Coordinate = Absent | Number(value: real) | Unreadable

  datatype RawGeometry = RawGeometry(x: Coordinate, y: Coordinate, width: Coordinate, height: Coordinate)

  datatype GeometryError = InvalidGeometry | OutOfBounds

  function Read(c: Coordinate): Option<real> {
    match c
    case Absent => Some(0.0)
    case Number(v) => Some(v)
    case Unreadable => None
  }

  function ReadBox(raw: RawGeometry): Option<Box> {
    match (Read(raw.x), Read(raw.y), Read(raw.width), Read(raw.height))
    case (Some(x), Some(y), Some(w), Some(h)) => Some(Box(x, y, w, h))
    case _ => None
  }

  /** The tolerance lets a box stick out of the frame by a thousandth. */
  predicate ValidBox(b: Box) {
    && b.width > 0.0 && b.height > 0.0
    && b.x >= 0.0 && b.y >= 0.0
    && b.x + b.width <= 1.001 && b.y + b.height <= 1.001
  }

  function Corners(b: Box): Rect {
    Rect(b.x, b.y, b.x + b.width, b.y + b.height)
  }

  function RectOf(b: Box): Result<Rect, GeometryError> {
    if ValidBox(b) then Ok(Corners(b)) else Err(OutOfBounds)
  }

  function ReadRect(raw: RawGeometry): Result<Rect, GeometryError> {
    match ReadBox(raw)
    case None => Err(InvalidGeometry)
    case Some(b) => RectOf(b)
  }

  function Extent(lo: real, hi: real): real { MaxReal(0.0, hi - lo) }

  function Area(r: Rect): real { Extent(r.left, r.right) * Extent(r.top, r.bottom) }

  function CommonExtent(a0: real, a1: real, b0: real, b1: real): real {
    Extent(MaxReal(a0, b0), MinReal(a1, b1))
  }

  function Intersection(a: Rect, b: Rect): real {
    CommonExtent(a.left, a.right, b.left, b.right) * CommonExtent(a.top, a.bottom, b.top, b.bottom)
  }

  /** Intersection area over the smaller of the two areas. */
  function Overlap(a: Rect, b: Rect): real {
    var smaller := MinReal(Area(a), Area(b));
    if smaller > 0.0 then Intersection(a, b) / smaller else 0.0
  }

  function AreaSimilarity(a: Rect, b: Rect): real {
    var larger := MaxReal(Area(a), Area(b));
    if larger > 0.0 then MinReal(Area(a), Area(b)) / larger else 0.0
  }

  predicate Proper(r: Rect) { r.left < r.right && r.top < r.bottom }

  predicate Inside(a: Rect, b: Rect) {
    b.left <= a.left && a.right <= b.right && b.top <= a.top && a.bottom <= b.bottom
  }

  lemma ScaleOrder(a: real, b: real, k: real)
    requires k > 0.0
    ensures a < b <==> a * k < b * k
    ensures a == b <==> a * k == b * k
  {
    if a < b { assert (b - a) * k > 0.0; }
    if b < a { assert (a - b) * k > 0.0; }
  }

  lemma ProductMonotone(a: real, b: real, c: real, d: real)
    requires 0.0 <= a <= c && 0.0 <= b <= d
    ensures 0.0 <= a * b <= c * d
  {
    assert a * b <= c * b;
    assert c * b <= c * d;
  }

  lemma ProductRigid(a: real, b: real, c: real, d: real)
    requires 0.0 <= a <= c && 0.0 <= b <= d && 0.0 < c && 0.0 < d
    requires a * b == c * d
    ensures a == c && b == d
  {
    ProductMonotone(a, b, a, d);
    ScaleOrder(a, c, d);
    if a == c {
      ScaleOrder(b, d, c);
    }
  }

  lemma IntersectionBounded(a: Rect, b: Rect)
    ensures 0.0 <= Intersection(a, b) <= Area(a)
    ensures Intersection(a, b) == Intersection(b, a)
  {
    var w := CommonExtent(a.left, a.right, b.left, b.right);
    var h := CommonExtent(a.top, a.bottom, b.top, b.bottom);
    ProductMonotone(w, h, Extent(a.left, a.right), Extent(a.top, a.bottom));
  }

  lemma DivideUnit(n: real, d: real)
    requires 0.0 <= n <= d && 0.0 < d
    ensures 0.0 <= n / d <= 1.0
    ensures n / d == 1.0 <==> n == d
  {
    assert n / d * d == n;
    ScaleOrder(n / d, 1.0, d);
    ScaleOrder(n / d, 0.0, d);
  }

  lemma OverlapBasics(a: Rect, b: Rect)
    ensures Overlap(a, b) == Overlap(b, a)
    ensures 0.0 <= Overlap(a, b) <= 1.0
  {
    IntersectionBounded(a, b);
    IntersectionBounded(b, a);
    var smaller := MinReal(Area(a), Area(b));
    if smaller > 0.0 {
      DivideUnit(Intersection(a, b), smaller);
    }
  }

  lemma ContainedIntersection(a: Rect, b: Rect)
    requires Proper(a) && Proper(b)
    ensures Intersection(a, b) == Area(a) <==> Inside(a, b)
    ensures Inside(a, b) ==> Area(a) <= Area(b)
  {
    var w := CommonExtent(a.left, a.right, b.left, b.right);
    var h := CommonExtent(a.top, a.bottom, b.top, b.bottom);
    var aw, ah := Extent(a.left, a.right), Extent(a.top, a.bottom);
    if Intersection(a, b) == Area(a) {
      ProductRigid(w, h, aw, ah);
    }
    if Inside(a, b) {
      assert w == aw && h == ah;
      ProductMonotone(aw, ah, Extent(b.left, b.right), Extent(b.top, b.bottom));
    }
  }

  lemma AreaPositive(a: Rect)
    requires Proper(a)
    ensures Area(a) > 0.0
  {
    assert Extent(a.left, a.right) > 0.0 && Extent(a.top, a.bottom) > 0.0;
  }

  /** Full overlap means exactly that one rectangle lies in the other. */
  lemma FullOverlapIsContainment(a: Rect, b: Rect)
    requires Proper(a) && Proper(b)
    ensures Overlap(a, b) == 1.0 <==> Inside(a, b) || Inside(b, a)
  {
    AreaPositive(a);
    AreaPositive(b);
    IntersectionBounded(a, b);
    IntersectionBounded(b, a);
    ContainedIntersection(a, b);
    ContainedIntersection(b, a);
    DivideUnit(Intersection(a, b), MinReal(Area(a), Area(b)));
  }

  /** The pixel rectangle [x0, x1) x [y0, y1) cut out of a width x height frame. */
  datatype Crop = Crop(x0: int, y0: int, x1: int, y1: int)

  function Floor(r: real): int { r.Floor }

  function Ceil(r: real): int { -((-r).Floor) }

  /** The crop is padded by a share of the anchor's extent, and by 0.015 at least. */
  function Padding(lo: real, hi: real, share: real): (pad: real)
    ensures pad >= 0.015
  {
    MaxReal(0.015, (hi - lo) * share)
  }

  function InPixels(edge: real, size: int): real { edge * size as real }

  function PixelRange(low: real, high: real, size: int): (int, int) {
    (Max(0, Floor(low)), Min(size, Ceil(high)))
  }

  /** First and last-plus-one pixel of one axis of the crop. */
  function CropAxis(lo: real, hi: real, share: real, size: int): (int, int) {
    var pad := Padding(lo, hi, share);
    PixelRange(InPixels(lo - pad, size), InPixels(hi + pad, size), size)
  }

  function CropOf(anchor: Rect, width: int, height: int): Crop {
    var (x0, x1) := CropAxis(anchor.left, anchor.right, 0.18, width);
    var (y0, y1) := CropAxis(anchor.top, anchor.bottom, 0.35, height);
    Crop(x0, y0, x1, y1)
  }

  predicate EmptyCrop(c: Crop) { c.x1 <= c.x0 || c.y1 <= c.y0 }

  predicate CropInFrame(c: Crop, width: int, height: int) {
    0 <= c.x0 < c.x1 <= width && 0 <= c.y0 < c.y1 <= height
  }

  /** Where the crop lies in normalized frame coordinates. */
  function CropRect(c: Crop, width: int, height: int): Rect
    requires width > 0 && height > 0
  {
    Rect(c.x0 as real / width as real, c.y0 as real / height as real,
         c.x1 as real / width as real, c.y1 as real / height as real)
  }

  function ProjectPoint(p: real, lo: int, hi: int, size: int): real
    requires size > 0
  {
    (lo as real + p * Max(1, hi - lo) as real) / size as real
  }

  function ProjectExtent(len: real, lo: int, hi: int, size: int): real
    requires size > 0
  {
    len * Max(1, hi - lo) as real / size as real
  }

  /** A box found in the crop, in coordinates of the whole frame. */
  function Project(b: Box, c: Crop, width: int, height: int): Box
    requires width > 0 && height > 0
  {
    Box(ProjectPoint(b.x, c.x0, c.x1, width), ProjectPoint(b.y, c.y0, c.y1, height),
        ProjectExtent(b.width, c.x0, c.x1, width), ProjectExtent(b.height, c.y0, c.y1, height))
  }

  lemma PixelSpan(low: real, high: real, size: int)
    requires size >= 1 && low < high && low < size as real && 0.0 < high
    ensures 0 <= Max(0, Floor(low)) < Min(size, Ceil(high)) <= size
    ensures Max(0, Floor(low)) as real <= low || Max(0, Floor(low)) == 0
    ensures Min(size, Ceil(high)) as real >= high || Min(size, Ceil(high)) == size
  {
  }

  lemma ScaledEdges(lo: real, hi: real, pad: real, s: real, low: real, high: real)
    requires s > 0.0 && pad >= 0.015 && 0.0 <= lo < hi <= 1.001
    requires low == (lo - pad) * s && high == (hi + pad) * s
    ensures low < high && low < s && 0.0 < high
    ensures low <= lo * s && 0.0 <= lo * s && hi * s <= high
  {
    ScaleOrder(lo - pad, hi + pad, s);
    ScaleOrder(lo - pad, 1.0, s);
    ScaleOrder(0.0, hi + pad, s);
    ScaleOrder(lo - pad, lo, s);
    ScaleOrder(lo, 0.0, s);
    ScaleOrder(hi, hi + pad, s);
  }

  lemma PixelsCover(a: int, b: int, lo: real, hi: real, low: real, high: real, size: int)
    requires size >= 1
    requires (a as real <= low || a == 0) && low <= lo * size as real && 0.0 <= lo * size as real
    requires (b as real >= high || b == size) && hi * size as real <= high
    ensures a as real / size as real <= lo
    ensures b as real / size as real >= hi || b as real / size as real == 1.0
  {
    QuotientOrder(a as real, lo, size as real);
    if b == size {
      SelfQuotient(size as real);
    } else {
      QuotientOrder(b as real, hi, size as real);
    }
  }

  lemma PixelRangeCovers(lo: real, hi: real, pad: real, low: real, high: real, size: int)
    requires size >= 1 && pad >= 0.015 && 0.0 <= lo < hi <= 1.001
    requires low == InPixels(lo - pad, size) && high == InPixels(hi + pad, size)
    ensures
      var (a, b) := PixelRange(low, high, size);
      && 0 <= a < b <= size
      && a as real / size as real <= lo
      && (b as real / size as real >= hi || b as real / size as real == 1.0)
  {
    ScaledEdges(lo, hi, pad, size as real, low, high);
    PixelSpan(low, high, size);
    PixelsCover(Max(0, Floor(low)), Min(size, Ceil(high)), lo, hi, low, high, size);
  }

  lemma CropAxisCovers(lo: real, hi: real, share: real, size: int)
    requires size >= 1 && 0.0 <= lo < hi <= 1.001
    ensures
      var (a, b) := CropAxis(lo, hi, share, size);
      && 0 <= a < b <= size
      && a as real / size as real <= lo
      && (b as real / size as real >= hi || b as real / size as real == 1.0)
  {
    hide Padding, PixelRange, InPixels;
    var pad := Padding(lo, hi, share);
    PixelRangeCovers(lo, hi, pad, InPixels(lo - pad, size), InPixels(hi + pad, size), size);
  }

  lemma SelfQuotient(d: real)
    requires d > 0.0
    ensures d / d == 1.0
  {
  }

  lemma QuotientOrder(n: real, q: real, d: real)
    requires d > 0.0
    ensures n <= q * d <==> n / d <= q
    ensures n >= q * d <==> n / d >= q
  {
    assert n / d * d == n;
    ScaleOrder(n / d, q, d);
    ScaleOrder(q, n / d, d);
  }

  /** No valid anchor yields an empty crop, and the crop always lies in the frame and covers the anchor. */
  lemma CropNeverEmpty(anchor: Box, width: int, height: int)
    requires ValidBox(anchor) && width >= 1 && height >= 1
    ensures var c := CropOf(Corners(anchor), width, height);
      CropInFrame(c, width, height) && !EmptyCrop(c)
    ensures var r := CropRect(CropOf(Corners(anchor), width, height), width, height);
      && r.left <= anchor.x && (r.right >= anchor.x + anchor.width || r.right == 1.0)
      && r.top <= anchor.y && (r.bottom >= anchor.y + anchor.height || r.bottom == 1.0)
  {
    hide CropAxis;
    var a := Corners(anchor);
    CropAxisCovers(a.left, a.right, 0.18, width);
    CropAxisCovers(a.top, a.bottom, 0.35, height);
  }

  /** Moves and stretches the horizontal axis. */
  function Stretch(r: Rect, o: real, k: real): Rect {
    Rect(o + r.left * k, r.top, o + r.right * k, r.bottom)
  }

  function Transpose(r: Rect): Rect { Rect(r.top, r.left, r.bottom, r.right) }

  /** Moves and stretches each axis on its own. */
  function Affine(r: Rect, ox: real, oy: real, kx: real, ky: real): Rect {
    Transpose(Stretch(Transpose(Stretch(r, ox, kx)), oy, ky))
  }

  lemma ScaledExtent(lo: real, hi: real, o: real, k: real)
    requires k > 0.0
    ensures Extent(o + lo * k, o + hi * k) == Extent(lo, hi) * k
  {
    ScaleOrder(lo, hi, k);
    assert (o + hi * k) - (o + lo * k) == (hi - lo) * k;
  }

  lemma ScaledCommonExtent(a0: real, a1: real, b0: real, b1: real, o: real, k: real,
                           a0': real, a1': real, b0': real, b1': real)
    requires k > 0.0
    requires a0' == o + a0 * k && a1' == o + a1 * k && b0' == o + b0 * k && b1' == o + b1 * k
    ensures CommonExtent(a0', a1', b0', b1') == CommonExtent(a0, a1, b0, b1) * k
  {
    hide Extent;
    ScaleOrder(a0, b0, k);
    ScaleOrder(b1, a1, k);
    var lo, hi := MaxReal(a0, b0), MinReal(a1, b1);
    assert MaxReal(a0', b0') == o + lo * k;
    assert MinReal(a1', b1') == o + hi * k;
    ScaledExtent(lo, hi, o, k);
  }

  lemma ScaledProduct(w: real, h: real, k: real)
    ensures (w * k) * h == (w * h) * k
  {
  }

  lemma OverlapWhenScaled(a: Rect, b: Rect, a': Rect, b': Rect, k: real)
    requires k > 0.0
    requires Intersection(a', b') == Intersection(a, b) * k && Area(a') == Area(a) * k && Area(b') == Area(b) * k
    ensures Overlap(a', b') == Overlap(a, b)
  {
    var smaller := MinReal(Area(a), Area(b));
    ScaleOrder(Area(a), Area(b), k);
    ScaleOrder(0.0, smaller, k);
    if smaller > 0.0 {
      CancelScale(Intersection(a, b), smaller, k);
    }
  }

  lemma StretchedArea(r: Rect, o: real, k: real)
    requires k > 0.0
    ensures Area(Stretch(r, o, k)) == Area(r) * k
  {
    ScaledExtent(r.left, r.right, o, k);
    ScaledProduct(Extent(r.left, r.right), Extent(r.top, r.bottom), k);
  }

  lemma WidenedIntersection(a: Rect, b: Rect, a': Rect, b': Rect, k: real)
    requires a'.top == a.top && a'.bottom == a.bottom && b'.top == b.top && b'.bottom == b.bottom
    requires CommonExtent(a'.left, a'.right, b'.left, b'.right) == CommonExtent(a.left, a.right, b.left, b.right) * k
    ensures Intersection(a', b') == Intersection(a, b) * k
  {
    ScaledProduct(CommonExtent(a.left, a.right, b.left, b.right), CommonExtent(a.top, a.bottom, b.top, b.bottom), k);
  }

  lemma StretchedIntersection(a: Rect, b: Rect, o: real, k: real)
    requires k > 0.0
    ensures Intersection(Stretch(a, o, k), Stretch(b, o, k)) == Intersection(a, b) * k
  {
    hide CommonExtent, Intersection;
    var a', b' := Stretch(a, o, k), Stretch(b, o, k);
    ScaledCommonExtent(a.left, a.right, b.left, b.right, o, k, a'.left, a'.right, b'.left, b'.right);
    WidenedIntersection(a, b, a', b', k);
  }

  lemma OverlapUnderStretch(a: Rect, b: Rect, o: real, k: real)
    requires k > 0.0
    ensures Overlap(Stretch(a, o, k), Stretch(b, o, k)) == Overlap(a, b)
  {
    StretchedArea(a, o, k);
    StretchedArea(b, o, k);
    StretchedIntersection(a, b, o, k);
    OverlapWhenScaled(a, b, Stretch(a, o, k), Stretch(b, o, k), k);
  }

  lemma OverlapUnderTranspose(a: Rect, b: Rect)
    ensures Overlap(Transpose(a), Transpose(b)) == Overlap(a, b)
  {
    TransposedParts(a, b);
  }

  lemma TransposedParts(a: Rect, b: Rect)
    ensures Area(Transpose(a)) == Area(a) && Area(Transpose(b)) == Area(b)
    ensures Intersection(Transpose(a), Transpose(b)) == Intersection(a, b)
  {
    Commute(Extent(a.left, a.right), Extent(a.top, a.bottom));
    Commute(Extent(b.left, b.right), Extent(b.top, b.bottom));
    Commute(CommonExtent(a.left, a.right, b.left, b.right), CommonExtent(a.top, a.bottom, b.top, b.bottom));
  }

  lemma Commute(p: real, q: real)
    ensures p * q == q * p
  {
  }

  lemma OverlapUnderAffine(a: Rect, b: Rect, ox: real, oy: real, kx: real, ky: real)
    requires kx > 0.0 && ky > 0.0
    ensures Overlap(Affine(a, ox, oy, kx, ky), Affine(b, ox, oy, kx, ky)) == Overlap(a, b)
  {
    var a1, b1 := Stretch(a, ox, kx), Stretch(b, ox, kx);
    var a2, b2 := Transpose(a1), Transpose(b1);
    OverlapUnderStretch(a, b, ox, kx);
    OverlapUnderTranspose(a1, b1);
    OverlapUnderStretch(a2, b2, oy, ky);
    OverlapUnderTranspose(Stretch(a2, oy, ky), Stretch(b2, oy, ky));
  }

  lemma CancelScale(n: real, d: real, k: real)
    requires d > 0.0 && k > 0.0
    ensures d * k > 0.0 && (n * k) / (d * k) == n / d
  {
    assert (n / d) * (d * k) == (n / d * d) * k == n * k;
  }

  /** Where the unit of one axis lands, and how much of the frame it spans. */
  function Origin(lo: int, size: int): real requires size > 0 { lo as real / size as real }

  function Share(lo: int, hi: int, size: int): real requires size > 0 { Max(1, hi - lo) as real / size as real }

  lemma ShareIsPositive(lo: int, hi: int, size: int)
    requires 0 <= lo < hi <= size
    ensures Share(lo, hi, size) > 0.0 && Origin(lo, size) >= 0.0
    ensures Origin(lo, size) + Share(lo, hi, size) == hi as real / size as real <= 1.0
  {
    var s := size as real;
    QuotientOrder(lo as real, 0.0, s);
    PositiveQuotient((hi - lo) as real, s);
    QuotientOrder(hi as real, 1.0, s);
    AddQuotients(lo as real, (hi - lo) as real, s);
  }

  lemma PositiveQuotient(n: real, d: real)
    requires n > 0.0 && d > 0.0
    ensures n / d > 0.0
  {
    assert n / d * d == n;
    ScaleOrder(0.0, n / d, d);
  }

  lemma AddQuotients(n: real, m: real, d: real)
    requires d > 0.0
    ensures n / d + m / d == (n + m) / d
  {
    assert n / d * d == n && m / d * d == m;
    assert (n / d + m / d) * d == n + m;
    DivideExactly(n + m, n / d + m / d, d);
  }

  lemma ScaledQuotient(p: real, n: real, d: real)
    requires d > 0.0
    ensures p * n / d == p * (n / d)
  {
    assert n / d * d == n;
    assert p * (n / d) * d == p * n;
    DivideExactly(p * n, p * (n / d), d);
  }

  lemma DivideExactly(n: real, q: real, d: real)
    requires d > 0.0 && q * d == n
    ensures n / d == q
  {
    assert n / d * d == n;
    ScaleOrder(n / d, q, d);
  }

  lemma ProjectedEdges(lo: int, hi: int, p: real, len: real, size: int)
    requires 0 <= lo < hi <= size
    ensures ProjectPoint(p, lo, hi, size) == Origin(lo, size) + p * Share(lo, hi, size)
    ensures ProjectPoint(p, lo, hi, size) + ProjectExtent(len, lo, hi, size)
         == Origin(lo, size) + (p + len) * Share(lo, hi, size)
  {
    var s, n := size as real, Max(1, hi - lo) as real;
    AddQuotients(lo as real, p * n, s);
    ScaledQuotient(p, n, s);
    ScaledQuotient(len, n, s);
    assert p * (n / s) + len * (n / s) == (p + len) * (n / s);
  }

  /** The projection is an affine map of corner rectangles. */
  lemma ProjectionIsAffine(b: Box, c: Crop, width: int, height: int)
    requires CropInFrame(c, width, height)
    ensures Corners(Project(b, c, width, height))
         == Affine(Corners(b), Origin(c.x0, width), Origin(c.y0, height),
                   Share(c.x0, c.x1, width), Share(c.y0, c.y1, height))
  {
    hide Origin, Share, ProjectPoint, ProjectExtent;
    ProjectedEdges(c.x0, c.x1, b.x, b.width, width);
    ProjectedEdges(c.y0, c.y1, b.y, b.height, height);
  }

  /** The geometric test gives one verdict, whether read in crop or in frame coordinates. */
  lemma ProjectionKeepsOverlap(a: Box, b: Box, c: Crop, width: int, height: int)
    requires CropInFrame(c, width, height)
    ensures Overlap(Corners(Project(a, c, width, height)), Corners(Project(b, c, width, height)))
         == Overlap(Corners(a), Corners(b))
  {
    hide Overlap, Affine, Project, Corners, Origin, Share;
    ShareIsPositive(c.x0, c.x1, width);
    ShareIsPositive(c.y0, c.y1, height);
    ProjectionIsAffine(a, c, width, height);
    ProjectionIsAffine(b, c, width, height);
    OverlapUnderAffine(Corners(a), Corners(b), Origin(c.x0, width), Origin(c.y0, height),
                       Share(c.x0, c.x1, width), Share(c.y0, c.y1, height));
  }

  /** A box that is valid in the crop is valid in the frame; one inside the unit crop lands inside the crop. */
  lemma ProjectionStaysValid(b: Box, c: Crop, width: int, height: int)
    requires CropInFrame(c, width, height) && ValidBox(b)
    ensures ValidBox(Project(b, c, width, height))
    ensures Inside(Corners(b), Rect(0.0, 0.0, 1.0, 1.0))
        ==> Inside(Corners(Project(b, c, width, height)), CropRect(c, width, height))
  {
    hide ProjectPoint, ProjectExtent;
    AxisStays(c.x0, c.x1, b.x, b.width, width);
    AxisStays(c.y0, c.y1, b.y, b.height, height);
  }

  lemma AxisStays(lo: int, hi: int, p: real, len: real, size: int)
    requires 0 <= lo < hi <= size && 0.0 <= p && 0.0 < len && p + len <= 1.001
    ensures 0.0 <= lo as real / size as real <= ProjectPoint(p, lo, hi, size)
    ensures 0.0 < ProjectExtent(len, lo, hi, size)
    ensures ProjectPoint(p, lo, hi, size) + ProjectExtent(len, lo, hi, size) <= 1.001
    ensures p + len <= 1.0 ==> ProjectPoint(p, lo, hi, size) + ProjectExtent(len, lo, hi, size) <= hi as real / size as real
  {
    hide ProjectPoint, ProjectExtent, Share;
    ShareIsPositive(lo, hi, size);
    ProjectedEdges(lo, hi, p, len, size);
    UnitInterval(Origin(lo, size), Share(lo, hi, size), p, len);
    if p + len <= 1.0 {
      calc {
        ProjectPoint(p, lo, hi, size) + ProjectExtent(len, lo, hi, size);
        Origin(lo, size) + (p + len) * Share(lo, hi, size);
      <=
        Origin(lo, size) + Share(lo, hi, size);
        hi as real / size as real;
      }
    }
  }

  lemma UnitInterval(o: real, k: real, p: real, len: real)
    requires 0.0 <= o && 0.0 < k && o + k <= 1.0 && 0.0 <= p && 0.0 < len && p + len <= 1.001
    ensures o <= o + p * k < o + (p + len) * k <= 1.001
    ensures p + len <= 1.0 ==> o + (p + len) * k <= o + k
  {
    ScaleOrder(p, 0.0, k);
    ScaleOrder(p, p + len, k);
    ScaleOrder(1.001, p + len, k);
    ScaleOrder(1.0, p + len, k);
    var reach := (p + len) * k;
    assert reach <= 1.001 * k;
  }
}
