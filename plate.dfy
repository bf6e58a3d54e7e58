/** The rectangular and squared base plate of addBasePlate (SVG3DScene,
    js/SVGtoSTL.js): the bounding box, grown by the buffer, made square
    when asked, and turned into a closed ring of its four corners. */
module Plate {
  import opened Geometry
  import opened Boxes

  /** The basePlateShape values this model covers. */
  datatype PlateShape = Rectangular | Squared

  /** The buffer of addBasePlate is a finite number: it is only computed
      for a positive baseBuffer, and then divides by objectWidth. */
  predicate FiniteBuffer(baseBuffer: real, objectWidth: real) {
    baseBuffer > 0.0 ==> objectWidth != 0.0
  }

  /** The box grown on every side by baseBuffer / objectWidth times its
      width, when baseBuffer is positive. */
  function Buffered(r: Rect, baseBuffer: real, objectWidth: real): Rect
    requires FiniteBuffer(baseBuffer, objectWidth)
  {
    if baseBuffer > 0.0 then
      var buffer := baseBuffer / objectWidth * (r.right - r.left);
      Rect(r.left - buffer, r.right + buffer, r.top - buffer, r.bottom + buffer, r.valid)
    else r
  }

  /** The square around the box's centre whose side is the box's larger
      side. */
  function SquaredRect(r: Rect): Rect {
    var width := r.right - r.left;
    var height := r.bottom - r.top;
    var mx := (r.left + r.right) / 2.0;
    var my := (r.bottom + r.top) / 2.0;
    var halfSize := (if width > height then width else height) / 2.0;
    Rect(mx - halfSize, mx + halfSize, my - halfSize, my + halfSize, r.valid)
  }

  /** The rectangle the plate is drawn from. */
  function PlateRect(r: Rect, shape: PlateShape, baseBuffer: real, objectWidth: real): Rect
    requires FiniteBuffer(baseBuffer, objectWidth)
  {
    var b := Buffered(r, baseBuffer, objectWidth);
    if shape == Squared then SquaredRect(b) else b
  }

  /** The plate ring: the four corners from bottom left, closed by the
      first one. */
  function PlateRing(r: Rect): seq<Point> {
    [Point(r.left, r.bottom), Point(r.right, r.bottom), Point(r.right, r.top), Point(r.left, r.top),
     Point(r.left, r.bottom)]
  }

  /** With a positive buffer and object width, every side moves out by the
      same amount, so the grown box covers the old one. */
  lemma BufferedSpec(r: Rect, baseBuffer: real, objectWidth: real)
    requires baseBuffer > 0.0 && objectWidth > 0.0 && r.left <= r.right
    ensures r.left - Buffered(r, baseBuffer, objectWidth).left == Buffered(r, baseBuffer, objectWidth).right - r.right
    ensures r.left - Buffered(r, baseBuffer, objectWidth).left == r.top - Buffered(r, baseBuffer, objectWidth).top
    ensures r.left - Buffered(r, baseBuffer, objectWidth).left == Buffered(r, baseBuffer, objectWidth).bottom - r.bottom
    ensures Covers(Buffered(r, baseBuffer, objectWidth), r)
  {
    var buffer := baseBuffer / objectWidth * (r.right - r.left);
    MulNonNegative(baseBuffer / objectWidth, r.right - r.left);
    assert buffer >= 0.0;
  }

  /** The squared box has equal sides, the larger of the old ones, the
      same centre, and covers the old box. */
  lemma SquaredSpec(r: Rect)
    requires r.left <= r.right && r.top <= r.bottom
    ensures SquaredRect(r).right - SquaredRect(r).left == SquaredRect(r).bottom - SquaredRect(r).top
    ensures SquaredRect(r).right - SquaredRect(r).left >= r.right - r.left
    ensures SquaredRect(r).right - SquaredRect(r).left >= r.bottom - r.top
    ensures SquaredRect(r).left + SquaredRect(r).right == r.left + r.right
    ensures SquaredRect(r).top + SquaredRect(r).bottom == r.top + r.bottom
    ensures Covers(SquaredRect(r), r)
  {
  }

  /** The plate ring is closed, has the box's corners, and its shoelace sum
      is twice the box's area, so it is clockwise for a box of positive
      size. */
  lemma PlateRingSpec(r: Rect)
    ensures |PlateRing(r)| == 5 && PlateRing(r)[0] == PlateRing(r)[4]
    ensures r.left <= r.right && r.top <= r.bottom ==> forall k :: 0 <= k < 5 ==> Encloses(r, PlateRing(r)[k])
    ensures ShoelaceSum(PlateRing(r)) == 2.0 * (r.right - r.left) * (r.bottom - r.top)
    ensures r.left < r.right && r.top < r.bottom ==> IsClockwise(PlateRing(r))
  {
    var p := PlateRing(r);
    assert p[..1] == [Point(r.left, r.bottom)];
    assert ShoelaceSum(p[..2]) == Term(p[0], p[1]) by {
      assert p[..2][..1] == p[..1];
    }
    assert ShoelaceSum(p[..3]) == ShoelaceSum(p[..2]) + Term(p[1], p[2]) by {
      assert p[..3][..2] == p[..2];
    }
    assert ShoelaceSum(p[..4]) == ShoelaceSum(p[..3]) + Term(p[2], p[3]) by {
      assert p[..4][..3] == p[..3];
    }
    assert ShoelaceSum(p) == ShoelaceSum(p[..4]) + Term(p[3], p[4]);
    if r.left < r.right && r.top < r.bottom {
      MulPositive(r.right - r.left, r.bottom - r.top);
    }
  }

  /** When the plate follows the shapes' bounding box, every point of every
      shape lies on the plate. */
  lemma PlateCoversShapes(shapes: seq<seq<seq<Point>>>, shape: PlateShape, baseBuffer: real, objectWidth: real)
    requires baseBuffer > 0.0 ==> objectWidth > 0.0
    ensures forall i, j, k :: 0 <= i < |shapes| && 0 <= j < |shapes[i]| && |shapes[i][0]| > 0 && 0 <= k < |shapes[i][j]| ==>
              Encloses(PlateRect(RingShapesRect(shapes), shape, baseBuffer, objectWidth), shapes[i][j][k])
  {
    var r := RingShapesRect(shapes);
    RingShapesRectEncloses(shapes);
    var b := Buffered(r, baseBuffer, objectWidth);
    var q := PlateRect(r, shape, baseBuffer, objectWidth);
    forall i, j, k | 0 <= i < |shapes| && 0 <= j < |shapes[i]| && |shapes[i][0]| > 0 && 0 <= k < |shapes[i][j]|
      ensures Encloses(q, shapes[i][j][k])
    {
      var pt := shapes[i][j][k];
      assert Encloses(r, pt);
      if baseBuffer > 0.0 {
        BufferedSpec(r, baseBuffer, objectWidth);
      }
      assert Covers(b, r);
      CoversEncloses(b, r, pt);
      if shape == Squared {
        SquaredSpec(b);
        CoversEncloses(q, b, pt);
      }
    }
  }
}
