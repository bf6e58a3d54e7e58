/** The upper and lower parts of the extruded mesh of SVG3DScene
    (createUpperPart, createLowerPart and minShapeDepth in
    js/SVGtoSTL.js): every triangulated shape lifted to its depth, every
    silhouette shape put at the depth of the base, with the triangle ids
    shifted past the vertices added before. */
module Extrusion {
  import opened Geometry
  import opened Meshes

  /** A triangulated shape of fillShapes: its points, its triangles as
      indices into the points, and its depth. */
  datatype FilledShape = FilledShape(points: seq<Point>, faces: seq<Face>, depth: real)

  /** Every triangle of the shape names points of the shape. */
  predicate ShapeValid(s: FilledShape) {
    forall f :: f in s.faces ==> f.a < |s.points| && f.b < |s.points| && f.c < |s.points|
  }

  predicate ShapesValid(shapes: seq<FilledShape>) {
    forall i :: 0 <= i < |shapes| ==> ShapeValid(shapes[i])
  }

  /** The height of a shape's vertices: its own depth (upper part) or one
      height for all (lower part). */
  datatype Level = OwnDepth | Flat(z: real)

  function Height(s: FilledShape, level: Level): real {
    match level
    case OwnDepth => s.depth
    case Flat(z) => z
  }

  // ---------------------------------------------------------------------
  // Vertices

  /** A point of a plane shape placed at height z. */
  function Lift1(p: Point, z: real): Vertex3 {
    Vertex3(p.x, p.y, z)
  }

  function Lift(points: seq<Point>, z: real): (vs: seq<Vertex3>)
    ensures |vs| == |points| && forall k :: 0 <= k < |points| ==> vs[k] == Lift1(points[k], z)
  {
    seq(|points|, k requires 0 <= k < |points| => Lift1(points[k], z))
  }

  lemma LiftSnoc(points: seq<Point>, z: real, j: nat)
    requires j < |points|
    ensures Lift(points[..j + 1], z) == Lift(points[..j], z) + [Lift1(points[j], z)]
  {
  }

  /** The number of points of the first n shapes. */
  function PointCount(shapes: seq<FilledShape>, n: nat): nat
    requires n <= |shapes|
  {
    if n == 0 then 0 else PointCount(shapes, n - 1) + |shapes[n - 1].points|
  }

  /** The vertices of the first n shapes, at the given level. */
  function VerticesUpTo(shapes: seq<FilledShape>, n: nat, level: Level): seq<Vertex3>
    requires n <= |shapes|
  {
    if n == 0 then [] else VerticesUpTo(shapes, n - 1, level) + Lift(shapes[n - 1].points, Height(shapes[n - 1], level))
  }

  /** One more shape's vertices after a start list. */
  lemma VerticesSnoc(start: seq<Vertex3>, shapes: seq<FilledShape>, i: nat, level: Level)
    requires i < |shapes|
    ensures start + VerticesUpTo(shapes, i + 1, level) ==
            (start + VerticesUpTo(shapes, i, level)) + Lift(shapes[i].points, Height(shapes[i], level))
  {
    var a := VerticesUpTo(shapes, i, level);
    var b := Lift(shapes[i].points, Height(shapes[i], level));
    assert VerticesUpTo(shapes, i + 1, level) == a + b;
    assert start + (a + b) == (start + a) + b;
  }

  lemma {:induction false} PointCountGrows(shapes: seq<FilledShape>, i: nat, n: nat)
    requires i < n <= |shapes|
    ensures PointCount(shapes, i) + |shapes[i].points| <= PointCount(shapes, n)
  {
    if i < n - 1 {
      PointCountGrows(shapes, i, n - 1);
    }
  }

  lemma {:induction false} VerticesCount(shapes: seq<FilledShape>, n: nat, level: Level)
    requires n <= |shapes|
    ensures |VerticesUpTo(shapes, n, level)| == PointCount(shapes, n)
  {
    if n > 0 {
      VerticesCount(shapes, n - 1, level);
    }
  }

  /** Point j of shape i is vertex PointCount(shapes, i) + j, lifted to
      the shape's height. */
  lemma {:induction false} VertexAt(shapes: seq<FilledShape>, n: nat, level: Level, i: nat, j: nat)
    requires i < n <= |shapes| && j < |shapes[i].points|
    ensures PointCount(shapes, i) + j < |VerticesUpTo(shapes, n, level)|
    ensures VerticesUpTo(shapes, n, level)[PointCount(shapes, i) + j] == Lift1(shapes[i].points[j], Height(shapes[i], level))
  {
    VerticesCount(shapes, n, level);
    VerticesCount(shapes, n - 1, level);
    var prev := VerticesUpTo(shapes, n - 1, level);
    var last := Lift(shapes[n - 1].points, Height(shapes[n - 1], level));
    if i < n - 1 {
      VertexAt(shapes, n - 1, level, i, j);
      assert (prev + last)[PointCount(shapes, i) + j] == prev[PointCount(shapes, i) + j];
    } else {
      assert (prev + last)[PointCount(shapes, i) + j] == last[j];
    }
  }

  // ---------------------------------------------------------------------
  // Faces

  /** A triangle with its ids shifted by off, its last two corners swapped
      when flip is set. */
  function Shift(f: Face, off: nat, flip: bool): Face {
    if flip then Face(f.a + off, f.c + off, f.b + off) else Face(f.a + off, f.b + off, f.c + off)
  }

  function ShiftAll(faces: seq<Face>, off: nat, flip: bool): (r: seq<Face>)
    ensures |r| == |faces| && forall k :: 0 <= k < |faces| ==> r[k] == Shift(faces[k], off, flip)
  {
    seq(|faces|, k requires 0 <= k < |faces| => Shift(faces[k], off, flip))
  }

  lemma ShiftAllSnoc(faces: seq<Face>, off: nat, flip: bool, j: nat)
    requires j < |faces|
    ensures ShiftAll(faces[..j + 1], off, flip) == ShiftAll(faces[..j], off, flip) + [Shift(faces[j], off, flip)]
  {
  }

  function FaceCount(shapes: seq<FilledShape>, n: nat): nat
    requires n <= |shapes|
  {
    if n == 0 then 0 else FaceCount(shapes, n - 1) + |shapes[n - 1].faces|
  }

  /** The triangles of the first n shapes, the ids of shape i shifted by
      base plus the points of the shapes before it. */
  function FacesUpTo(shapes: seq<FilledShape>, n: nat, base: nat, flip: bool): seq<Face>
    requires n <= |shapes|
  {
    if n == 0 then []
    else FacesUpTo(shapes, n - 1, base, flip) + ShiftAll(shapes[n - 1].faces, base + PointCount(shapes, n - 1), flip)
  }

  /** One more shape's faces after a start list. */
  lemma FacesSnoc(start: seq<Face>, shapes: seq<FilledShape>, i: nat, base: nat, flip: bool)
    requires i < |shapes|
    ensures start + FacesUpTo(shapes, i + 1, base, flip) ==
            (start + FacesUpTo(shapes, i, base, flip)) + ShiftAll(shapes[i].faces, base + PointCount(shapes, i), flip)
  {
    var a := FacesUpTo(shapes, i, base, flip);
    var b := ShiftAll(shapes[i].faces, base + PointCount(shapes, i), flip);
    assert FacesUpTo(shapes, i + 1, base, flip) == a + b;
    assert start + (a + b) == (start + a) + b;
  }

  /** The face loop's list after one more shape. */
  lemma FacesStep(start: seq<Face>, r: seq<Face>, next: seq<Face>, shapes: seq<FilledShape>, i: nat, base: nat, flip: bool)
    requires i < |shapes| && r == start + FacesUpTo(shapes, i, base, flip)
    requires next == r + ShiftAll(shapes[i].faces, base + PointCount(shapes, i), flip)
    ensures next == start + FacesUpTo(shapes, i + 1, base, flip)
    ensures PointCount(shapes, i + 1) == PointCount(shapes, i) + |shapes[i].points|
  {
    FacesSnoc(start, shapes, i, base, flip);
  }

  lemma {:induction false} FaceCountGrows(shapes: seq<FilledShape>, i: nat, n: nat)
    requires i < n <= |shapes|
    ensures FaceCount(shapes, i) + |shapes[i].faces| <= FaceCount(shapes, n)
  {
    if i < n - 1 {
      FaceCountGrows(shapes, i, n - 1);
    }
  }

  lemma {:induction false} FacesCount(shapes: seq<FilledShape>, n: nat, base: nat, flip: bool)
    requires n <= |shapes|
    ensures |FacesUpTo(shapes, n, base, flip)| == FaceCount(shapes, n)
  {
    if n > 0 {
      FacesCount(shapes, n - 1, base, flip);
    }
  }

  /** Triangle j of shape i is face FaceCount(shapes, i) + j, shifted past
      base and the points of the shapes before shape i. */
  lemma {:induction false} FaceAt(shapes: seq<FilledShape>, n: nat, base: nat, flip: bool, i: nat, j: nat)
    requires i < n <= |shapes| && j < |shapes[i].faces|
    ensures FaceCount(shapes, i) + j < |FacesUpTo(shapes, n, base, flip)|
    ensures FacesUpTo(shapes, n, base, flip)[FaceCount(shapes, i) + j] ==
              Shift(shapes[i].faces[j], base + PointCount(shapes, i), flip)
  {
    FacesCount(shapes, n, base, flip);
    FacesCount(shapes, n - 1, base, flip);
    var prev := FacesUpTo(shapes, n - 1, base, flip);
    var last := ShiftAll(shapes[n - 1].faces, base + PointCount(shapes, n - 1), flip);
    if i < n - 1 {
      FaceAt(shapes, n - 1, base, flip, i, j);
      assert (prev + last)[FaceCount(shapes, i) + j] == prev[FaceCount(shapes, i) + j];
    } else {
      assert (prev + last)[FaceCount(shapes, i) + j] == last[j];
    }
  }

  /** With valid shapes, every id lies in [base, base + the points). */
  lemma {:induction false} FacesUpToIn(shapes: seq<FilledShape>, n: nat, base: nat, flip: bool)
    requires n <= |shapes| && ShapesValid(shapes)
    ensures forall f :: f in FacesUpTo(shapes, n, base, flip) ==>
              base <= f.a < base + PointCount(shapes, n) &&
              base <= f.b < base + PointCount(shapes, n) &&
              base <= f.c < base + PointCount(shapes, n)
  {
    if n > 0 {
      FacesUpToIn(shapes, n - 1, base, flip);
      var s := shapes[n - 1];
      forall f | f in ShiftAll(s.faces, base + PointCount(shapes, n - 1), flip)
        ensures base <= f.a < base + PointCount(shapes, n) &&
                base <= f.b < base + PointCount(shapes, n) &&
                base <= f.c < base + PointCount(shapes, n)
      {
        var k :| 0 <= k < |s.faces| && f == Shift(s.faces[k], base + PointCount(shapes, n - 1), flip);
        assert s.faces[k] in s.faces;
      }
    }
  }

  // ---------------------------------------------------------------------
  // The extruded mesh

  /** The mesh of createUpperPart followed by createLowerPart on an empty
      geometry: the shapes at their depths with swapped corners, then the
      silhouette shapes at height z with their corners in order. */
  function Extruded(shapes: seq<FilledShape>, silhouette: seq<FilledShape>, z: real): Mesh {
    Mesh(VerticesUpTo(shapes, |shapes|, OwnDepth) + VerticesUpTo(silhouette, |silhouette|, Flat(z)),
         FacesUpTo(shapes, |shapes|, 0, true) + FacesUpTo(silhouette, |silhouette|, PointCount(shapes, |shapes|), false))
  }

  /** Every triangle of the extruded mesh names a vertex of the mesh. */
  lemma ExtrudedValid(shapes: seq<FilledShape>, silhouette: seq<FilledShape>, z: real)
    requires ShapesValid(shapes) && ShapesValid(silhouette)
    ensures FacesValid(Extruded(shapes, silhouette, z))
  {
    VerticesCount(shapes, |shapes|, OwnDepth);
    VerticesCount(silhouette, |silhouette|, Flat(z));
    FacesUpToIn(shapes, |shapes|, 0, true);
    FacesUpToIn(silhouette, |silhouette|, PointCount(shapes, |shapes|), false);
  }

  /** Upper triangle j of shape i, (a, b, c), is the face (a, c, b) over
      the points of shape i itself, lifted to the shape's depth. */
  lemma UpperCorners(shapes: seq<FilledShape>, silhouette: seq<FilledShape>, z: real, i: nat, j: nat)
    requires ShapesValid(shapes) && i < |shapes| && j < |shapes[i].faces|
    ensures FaceCount(shapes, i) + j < |Extruded(shapes, silhouette, z).faces|
    ensures Extruded(shapes, silhouette, z).faces[FaceCount(shapes, i) + j] ==
              Shift(shapes[i].faces[j], PointCount(shapes, i), true)
    ensures PointCount(shapes, i) + shapes[i].faces[j].a < |Extruded(shapes, silhouette, z).vertices|
    ensures PointCount(shapes, i) + shapes[i].faces[j].b < |Extruded(shapes, silhouette, z).vertices|
    ensures PointCount(shapes, i) + shapes[i].faces[j].c < |Extruded(shapes, silhouette, z).vertices|
    ensures Extruded(shapes, silhouette, z).vertices[PointCount(shapes, i) + shapes[i].faces[j].a] ==
              Lift1(shapes[i].points[shapes[i].faces[j].a], shapes[i].depth)
    ensures Extruded(shapes, silhouette, z).vertices[PointCount(shapes, i) + shapes[i].faces[j].b] ==
              Lift1(shapes[i].points[shapes[i].faces[j].b], shapes[i].depth)
    ensures Extruded(shapes, silhouette, z).vertices[PointCount(shapes, i) + shapes[i].faces[j].c] ==
              Lift1(shapes[i].points[shapes[i].faces[j].c], shapes[i].depth)
  {
    var m := Extruded(shapes, silhouette, z);
    var up := VerticesUpTo(shapes, |shapes|, OwnDepth);
    var upf := FacesUpTo(shapes, |shapes|, 0, true);
    var f := shapes[i].faces[j];
    assert f in shapes[i].faces && ShapeValid(shapes[i]);
    FaceAt(shapes, |shapes|, 0, true, i, j);
    VertexAt(shapes, |shapes|, OwnDepth, i, f.a);
    VertexAt(shapes, |shapes|, OwnDepth, i, f.b);
    VertexAt(shapes, |shapes|, OwnDepth, i, f.c);
    assert m.faces[FaceCount(shapes, i) + j] == upf[FaceCount(shapes, i) + j];
    assert m.vertices[PointCount(shapes, i) + f.a] == up[PointCount(shapes, i) + f.a];
    assert m.vertices[PointCount(shapes, i) + f.b] == up[PointCount(shapes, i) + f.b];
    assert m.vertices[PointCount(shapes, i) + f.c] == up[PointCount(shapes, i) + f.c];
  }

  /** Point k of silhouette shape i, at height z, follows all the upper
      vertices. */
  lemma LowerVertex(shapes: seq<FilledShape>, silhouette: seq<FilledShape>, z: real, i: nat, k: nat)
    requires i < |silhouette| && k < |silhouette[i].points|
    ensures PointCount(shapes, |shapes|) + PointCount(silhouette, i) + k < |Extruded(shapes, silhouette, z).vertices|
    ensures Extruded(shapes, silhouette, z).vertices[PointCount(shapes, |shapes|) + PointCount(silhouette, i) + k] ==
              Lift1(silhouette[i].points[k], z)
  {
    var up := VerticesUpTo(shapes, |shapes|, OwnDepth);
    var low := VerticesUpTo(silhouette, |silhouette|, Flat(z));
    VerticesCount(shapes, |shapes|, OwnDepth);
    VertexAt(silhouette, |silhouette|, Flat(z), i, k);
    assert (up + low)[|up| + PointCount(silhouette, i) + k] == low[PointCount(silhouette, i) + k];
  }

  /** Lower triangle j of silhouette shape i keeps its corner order over
      the points of that silhouette shape, put at height z, which follow
      all the upper vertices. */
  lemma LowerCorners(shapes: seq<FilledShape>, silhouette: seq<FilledShape>, z: real, i: nat, j: nat)
    requires ShapesValid(silhouette) && i < |silhouette| && j < |silhouette[i].faces|
    ensures FaceCount(shapes, |shapes|) + FaceCount(silhouette, i) + j < |Extruded(shapes, silhouette, z).faces|
    ensures Extruded(shapes, silhouette, z).faces[FaceCount(shapes, |shapes|) + FaceCount(silhouette, i) + j] ==
              Shift(silhouette[i].faces[j], PointCount(shapes, |shapes|) + PointCount(silhouette, i), false)
    ensures PointCount(shapes, |shapes|) + PointCount(silhouette, i) + silhouette[i].faces[j].a <
              |Extruded(shapes, silhouette, z).vertices|
    ensures PointCount(shapes, |shapes|) + PointCount(silhouette, i) + silhouette[i].faces[j].b <
              |Extruded(shapes, silhouette, z).vertices|
    ensures PointCount(shapes, |shapes|) + PointCount(silhouette, i) + silhouette[i].faces[j].c <
              |Extruded(shapes, silhouette, z).vertices|
    ensures Extruded(shapes, silhouette, z).vertices[PointCount(shapes, |shapes|) + PointCount(silhouette, i) + silhouette[i].faces[j].a] ==
              Lift1(silhouette[i].points[silhouette[i].faces[j].a], z)
    ensures Extruded(shapes, silhouette, z).vertices[PointCount(shapes, |shapes|) + PointCount(silhouette, i) + silhouette[i].faces[j].b] ==
              Lift1(silhouette[i].points[silhouette[i].faces[j].b], z)
    ensures Extruded(shapes, silhouette, z).vertices[PointCount(shapes, |shapes|) + PointCount(silhouette, i) + silhouette[i].faces[j].c] ==
              Lift1(silhouette[i].points[silhouette[i].faces[j].c], z)
  {
    var f := silhouette[i].faces[j];
    assert f in silhouette[i].faces && ShapeValid(silhouette[i]);
    LowerFace(shapes, silhouette, z, i, j);
    LowerVertex(shapes, silhouette, z, i, f.a);
    LowerVertex(shapes, silhouette, z, i, f.b);
    LowerVertex(shapes, silhouette, z, i, f.c);
  }

  /** Face j of silhouette shape i sits after the upper faces, shifted past
      the upper points and not flipped. */
  lemma LowerFace(shapes: seq<FilledShape>, silhouette: seq<FilledShape>, z: real, i: nat, j: nat)
    requires i < |silhouette| && j < |silhouette[i].faces|
    ensures FaceCount(shapes, |shapes|) + FaceCount(silhouette, i) + j < |Extruded(shapes, silhouette, z).faces|
    ensures Extruded(shapes, silhouette, z).faces[FaceCount(shapes, |shapes|) + FaceCount(silhouette, i) + j] ==
              Shift(silhouette[i].faces[j], PointCount(shapes, |shapes|) + PointCount(silhouette, i), false)
  {
    var upf := FacesUpTo(shapes, |shapes|, 0, true);
    var lowf := FacesUpTo(silhouette, |silhouette|, PointCount(shapes, |shapes|), false);
    FacesCount(shapes, |shapes|, 0, true);
    FaceAt(silhouette, |silhouette|, PointCount(shapes, |shapes|), false, i, j);
    assert (upf + lowf)[|upf| + FaceCount(silhouette, i) + j] == lowf[FaceCount(silhouette, i) + j];
  }

  // ---------------------------------------------------------------------
  // minShapeDepth

  /** The smallest depth of the first n shapes, or 0 when it is not
      negative. */
  function MinDepth(shapes: seq<FilledShape>, n: nat): real
    requires n <= |shapes|
  {
    if n == 0 then 0.0
    else if shapes[n - 1].depth < MinDepth(shapes, n - 1) then shapes[n - 1].depth
    else MinDepth(shapes, n - 1)
  }

  /** The minimum is at most 0 and at most every depth, and it is 0 or one
      of the depths. */
  lemma {:induction false} MinDepthSpec(shapes: seq<FilledShape>, n: nat)
    requires n <= |shapes|
    ensures MinDepth(shapes, n) <= 0.0
    ensures forall i :: 0 <= i < n ==> MinDepth(shapes, n) <= shapes[i].depth
    ensures MinDepth(shapes, n) == 0.0 || exists i :: 0 <= i < n && shapes[i].depth == MinDepth(shapes, n)
  {
    if n > 0 {
      MinDepthSpec(shapes, n - 1);
    }
  }

  /** With no negative depth the minimum is 0. */
  lemma MinDepthOfNonNegative(shapes: seq<FilledShape>)
    requires forall i :: 0 <= i < |shapes| ==> shapes[i].depth >= 0.0
    ensures MinDepth(shapes, |shapes|) == 0.0
  {
    MinDepthSpec(shapes, |shapes|);
  }

  /** The height of the lower part in createLowerPart: baseDepth below
      minShapeDepth. As written that minimum is always 0; as intended it
      is the smallest depth of the shapes, or 0. */
  function BaseHeight(shapes: seq<FilledShape>, baseDepth: real, intended: bool): real {
    (if intended then MinDepth(shapes, |shapes|) else 0.0) - baseDepth
  }

  /** As intended the base lies baseDepth below every shape; as written it
      lies baseDepth below 0, whatever the depths. */
  lemma BaseHeightSpec(shapes: seq<FilledShape>, baseDepth: real)
    ensures forall i :: 0 <= i < |shapes| ==> BaseHeight(shapes, baseDepth, true) <= shapes[i].depth - baseDepth
    ensures BaseHeight(shapes, baseDepth, true) <= BaseHeight(shapes, baseDepth, false)
    ensures BaseHeight(shapes, baseDepth, false) == 0.0 - baseDepth
  {
    MinDepthSpec(shapes, |shapes|);
  }

  /** As written, a shape of depth -2 with a base depth of 1 has its top
      below the base at -1; as intended the base is at -3. */
  lemma BaseAboveShapeAsWritten()
    ensures BaseHeight([FilledShape([], [], -2.0)], 1.0, false) == -1.0
    ensures BaseHeight([FilledShape([], [], -2.0)], 1.0, false) > -2.0
    ensures BaseHeight([FilledShape([], [], -2.0)], 1.0, true) == -3.0
  {
    assert MinDepth([FilledShape([], [], -2.0)], 1) == -2.0;
  }

  /** A scene with a shape below depth 0, where the minimum is not 0. */
  lemma MinDepthBelowZero()
    ensures MinDepth([FilledShape([], [], -1.0)], 1) == -1.0
  {
  }
}
