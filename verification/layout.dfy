/** Centering the advertisement text on the canvas (py.py lines 49-51). */
module Layout {
  import opened Raster

  /** A bounding box as the font backend reports it: left, top, right, bottom,
      relative to the point the text was measured at. */
  datatype BBox = BBox(left: int, top: int, right: int, bottom: int)

  function Width(b: BBox): int {
    b.right - b.left
  }

  function Height(b: BBox): int {
    b.bottom - b.top
  }

  datatype Point = Point(x: int, y: int)

  /** Python's `a // d` for a positive divisor: the floor of a / d. Dafny's
      `/` rounds toward negative infinity when the divisor is positive. */
  function FloorDiv(a: int, d: int): (q: int)
    requires d > 0
    ensures d * q <= a < d * q + d
  {
    a / d
  }

  /** The text origin: half the spare room on each axis, rounded down. */
  function CenteredOrigin(b: BBox): (o: Point)
    ensures 0 <= (CanvasWidth - Width(b)) - 2 * o.x <= 1
    ensures 0 <= (CanvasHeight - Height(b)) - 2 * o.y <= 1
  {
    Point(FloorDiv(CanvasWidth - Width(b), 2), FloorDiv(CanvasHeight - Height(b), 2))
  }

  /** The origin is the only point whose right margin equals its left margin
      or exceeds it by one pixel (likewise bottom against top). */
  lemma CenteredOriginUnique(b: BBox, o: Point)
    requires 0 <= (CanvasWidth - Width(b)) - 2 * o.x <= 1
    requires 0 <= (CanvasHeight - Height(b)) - 2 * o.y <= 1
    ensures o == CenteredOrigin(b)
  {
  }

  /** A 40 x 20 box lands at (980, 56), wherever the box was measured. */
  lemma CenteredOriginExample(left: int, top: int)
    ensures CenteredOrigin(BBox(left, top, left + 40, top + 20)) == Point(980, 56)
  {
  }

  /** Only the box's size matters, not where its corner lies. */
  lemma CenteredOriginTranslation(b: BBox, dx: int, dy: int)
    ensures CenteredOrigin(BBox(b.left + dx, b.top + dy, b.right + dx, b.bottom + dy)) == CenteredOrigin(b)
  {
  }

  /** A box no larger than the canvas is placed inside it, with left and
      right margins (and top and bottom margins) differing by at most one. */
  lemma CenteredBoxFits(b: BBox)
    requires Width(b) <= CanvasWidth && Height(b) <= CanvasHeight
    ensures 0 <= CenteredOrigin(b).x && CenteredOrigin(b).x + Width(b) <= CanvasWidth
    ensures 0 <= CenteredOrigin(b).y && CenteredOrigin(b).y + Height(b) <= CanvasHeight
    ensures var o := CenteredOrigin(b);
      var rightMargin := CanvasWidth - (o.x + Width(b));
      var bottomMargin := CanvasHeight - (o.y + Height(b));
      0 <= rightMargin - o.x <= 1 && 0 <= bottomMargin - o.y <= 1
  {
  }

  /** The origin is non-negative on an axis exactly when the box fits on it;
      a wider box starts left of the canvas and overhangs both sides. */
  lemma CenteredOriginNonNegative(b: BBox)
    ensures 0 <= CenteredOrigin(b).x <==> Width(b) <= CanvasWidth
    ensures 0 <= CenteredOrigin(b).y <==> Height(b) <= CanvasHeight
  {
  }
}
