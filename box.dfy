/** The 2D bounding box of js/box.js: a mutable class whose value is a
    Rect, grown point by point (addPoint) or box by box (add). */
module Boxes {
  import opened Geometry

  /** The value of a Box: its four sides and its valid flag. In drawing
      coordinates y grows downward, so top <= bottom on a grown box. */
  datatype Rect = Rect(left: real, right: real, top: real, bottom: real, valid: bool)

  /** Box.invalid(). */
  const InvalidRect := Rect(0.0, 0.0, 0.0, 0.0, false)

  /** The record of toRBushItem. */
  datatype RBushItem = RBushItem(minX: real, minY: real, maxX: real, maxY: real)

  /** A shape as box.js sees it: a contour polyline and its holes. */
  datatype Shape = Shape(polyline: seq<Point>, holes: seq<seq<Point>>)

  predicate Encloses(r: Rect, p: Point) {
    r.left <= p.x <= r.right && r.top <= p.y <= r.bottom
  }

  /** r covers at least the area of s. */
  predicate Covers(r: Rect, s: Rect) {
    r.left <= s.left && s.right <= r.right && r.top <= s.top && s.bottom <= r.bottom
  }

  /** The value after a.add(b). */
  function AddRect(a: Rect, b: Rect): Rect {
    if !b.valid then a
    else Rect(if b.left < a.left then b.left else a.left,
              if b.right > a.right then b.right else a.right,
              if b.top < a.top then b.top else a.top,
              if b.bottom > a.bottom then b.bottom else a.bottom,
              a.valid)
  }

  /** The value after a.addPoint(p). */
  function AddPointRect(a: Rect, p: Point): Rect {
    if !a.valid then a
    else Rect(if p.x < a.left then p.x else a.left,
              if p.x > a.right then p.x else a.right,
              if p.y < a.top then p.y else a.top,
              if p.y > a.bottom then p.y else a.bottom,
              a.valid)
  }

  /** The box of a single point, new Box(x, x, y, y). */
  function PointRect(p: Point): Rect {
    Rect(p.x, p.x, p.y, p.y, true)
  }

  /** The value Box.fromPath builds. */
  function PathRect(path: seq<Point>): Rect
    decreases |path|
  {
    if |path| == 0 then InvalidRect
    else if |path| == 1 then PointRect(path[0])
    else AddPointRect(PathRect(path[..|path| - 1]), path[|path| - 1])
  }

  /** The value Box.fromPaths builds. */
  function PathsRect(paths: seq<seq<Point>>): Rect
    decreases |paths|
  {
    if |paths| == 0 then InvalidRect
    else if |paths| == 1 then PathRect(paths[0])
    else AddRect(PathsRect(paths[..|paths| - 1]), PathRect(paths[|paths| - 1]))
  }

  /** The value Box.fromShape builds. */
  function ShapeRect(shape: Shape): Rect {
    if |shape.holes| > 0 then AddRect(PathRect(shape.polyline), PathsRect(shape.holes))
    else PathRect(shape.polyline)
  }

  /** The value Box.fromShapes of js/box.js builds. */
  function ShapesRect(shapes: seq<Shape>): Rect
    decreases |shapes|
  {
    if |shapes| == 0 then InvalidRect
    else if |shapes| == 1 then ShapeRect(shapes[0])
    else AddRect(ShapesRect(shapes[..|shapes| - 1]), ShapeRect(shapes[|shapes| - 1]))
  }

  /** The value Box.fromShapes of js/SVGtoSTL.js builds, where a shape is
      a list of rings (contour first, then holes). */
  function RingShapesRect(shapes: seq<seq<seq<Point>>>): Rect
    decreases |shapes|
  {
    if |shapes| == 0 then InvalidRect
    else if |shapes| == 1 then PathsRect(shapes[0])
    else AddRect(RingShapesRect(shapes[..|shapes| - 1]), PathsRect(shapes[|shapes| - 1]))
  }

  /** The x, y part of mesh vertices, as fromXY reads them. */
  function XY(vs: seq<Vertex3>): (ps: seq<Point>)
    ensures |ps| == |vs|
    ensures forall k :: 0 <= k < |vs| ==> ps[k] == Point(vs[k].x, vs[k].y)
  {
    if vs == [] then [] else XY(vs[..|vs| - 1]) + [Point(vs[|vs| - 1].x, vs[|vs| - 1].y)]
  }

  class Box {
    var left: real
    var right: real
    var top: real
    var bottom: real
    var valid: bool

    function Value(): Rect
      reads this
    {
      Rect(left, right, top, bottom, valid)
    }

    constructor (left: real, right: real, top: real, bottom: real, valid: bool := true)
      ensures Value() == Rect(left, right, top, bottom, valid)
    {
      this.left := left;
      this.right := right;
      this.top := top;
      this.bottom := bottom;
      this.valid := valid;
    }

    /** toRBushItem: the item spans exactly the points the box encloses. */
    function ToRBushItem(): (item: RBushItem)
      reads this
      ensures forall p: Point ::
                (item.minX <= p.x <= item.maxX && item.minY <= p.y <= item.maxY) <==> Encloses(Value(), p)
    {
      RBushItem(left, top, right, bottom)
    }

    /** getMaximumSize: the larger of the width and the height. */
    function GetMaximumSize(): (size: real)
      reads this
      ensures size >= right - left && size >= bottom - top
      ensures size == right - left || size == bottom - top
    {
      var width := right - left;
      var height := bottom - top;
      if width > height then width else height
    }

    /** center: the point halfway between the sides. */
    function Center(): (c: Point)
      reads this
      ensures c.x - left == right - c.x && c.y - top == bottom - c.y
    {
      Point((left + right) / 2.0, (bottom + top) / 2.0)
    }

    method Add(box: Box)
      modifies this
      ensures Value() == AddRect(old(Value()), old(box.Value()))
    {
      if box.valid {
        if box.left < this.left { this.left := box.left; }
        if box.top < this.top { this.top := box.top; }
        if box.right > this.right { this.right := box.right; }
        if box.bottom > this.bottom { this.bottom := box.bottom; }
      }
    }

    method AddPoint(point: Point)
      modifies this
      ensures Value() == AddPointRect(old(Value()), point)
    {
      if this.valid {
        if point.x < this.left { this.left := point.x; }
        if point.y < this.top { this.top := point.y; }
        if point.x > this.right { this.right := point.x; }
        if point.y > this.bottom { this.bottom := point.y; }
      }
    }

    static method Invalid() returns (box: Box)
      ensures fresh(box) && box.Value() == InvalidRect
    {
      box := new Box(0.0, 0.0, 0.0, 0.0, false);
    }

    static method FromPath(path: seq<Point>) returns (result: Box)
      ensures fresh(result) && result.Value() == PathRect(path)
    {
      if |path| == 0 {
        result := Invalid();
        return;
      }
      result := new Box(path[0].x, path[0].x, path[0].y, path[0].y);
      var i := 1;
      while i != |path|
        invariant 1 <= i <= |path|
        invariant fresh(result) && result.Value() == PathRect(path[..i])
      {
        result.AddPoint(path[i]);
        assert path[..i + 1][..i] == path[..i];
        i := i + 1;
      }
      assert path[..i] == path;
    }

    static method FromXY(vertices: seq<Vertex3>) returns (result: Box)
      ensures fresh(result) && result.Value() == PathRect(XY(vertices))
    {
      ghost var pts := XY(vertices);
      if |vertices| == 0 {
        result := Invalid();
        return;
      }
      result := new Box(vertices[0].x, vertices[0].x, vertices[0].y, vertices[0].y);
      var i := 1;
      while i != |vertices|
        invariant 1 <= i <= |vertices|
        invariant fresh(result) && result.Value() == PathRect(pts[..i])
      {
        result.AddPoint(Point(vertices[i].x, vertices[i].y));
        assert pts[..i + 1][..i] == pts[..i];
        i := i + 1;
      }
      assert pts[..i] == pts;
    }

    static method FromPaths(paths: seq<seq<Point>>) returns (result: Box)
      ensures fresh(result) && result.Value() == PathsRect(paths)
    {
      if |paths| == 0 {
        result := Invalid();
        return;
      }
      result := FromPath(paths[0]);
      var i := 1;
      while i < |paths|
        invariant 1 <= i <= |paths|
        invariant fresh(result) && result.Value() == PathsRect(paths[..i])
      {
        var next := FromPath(paths[i]);
        result.Add(next);
        assert paths[..i + 1][..i] == paths[..i];
        i := i + 1;
      }
      assert paths[..i] == paths;
    }

    static method FromShape(shape: Shape) returns (result: Box)
      ensures fresh(result) && result.Value() == ShapeRect(shape)
    {
      result := FromPath(shape.polyline);
      if |shape.holes| > 0 {
        var holes := FromPaths(shape.holes);
        result.Add(holes);
      }
    }

    static method FromShapes(shapes: seq<Shape>) returns (result: Box)
      ensures fresh(result) && result.Value() == ShapesRect(shapes)
    {
      if |shapes| == 0 {
        result := Invalid();
        return;
      }
      result := FromShape(shapes[0]);
      var i := 1;
      while i < |shapes|
        invariant 1 <= i <= |shapes|
        invariant fresh(result) && result.Value() == ShapesRect(shapes[..i])
      {
        var next := FromShape(shapes[i]);
        result.Add(next);
        assert shapes[..i + 1][..i] == shapes[..i];
        i := i + 1;
      }
      assert shapes[..i] == shapes;
    }

    /** Box.fromShapes as js/SVGtoSTL.js defines it (its getBoundsOfShapes). */
    static method FromRingShapes(shapes: seq<seq<seq<Point>>>) returns (result: Box)
      ensures fresh(result) && result.Value() == RingShapesRect(shapes)
    {
      if |shapes| == 0 {
        result := Invalid();
        return;
      }
      result := FromPaths(shapes[0]);
      var i := 1;
      while i < |shapes|
        invariant 1 <= i <= |shapes|
        invariant fresh(result) && result.Value() == RingShapesRect(shapes[..i])
      {
        var next := FromPaths(shapes[i]);
        result.Add(next);
        assert shapes[..i + 1][..i] == shapes[..i];
        i := i + 1;
      }
      assert shapes[..i] == shapes;
    }
  }

  // ---------------------------------------------------------------------
  // Properties of add and addPoint

  /** addPoint on a valid box encloses the point and never shrinks the
      box; on an invalid box it changes nothing. */
  lemma AddPointGrows(a: Rect, p: Point)
    ensures a.valid ==> Encloses(AddPointRect(a, p), p) && Covers(AddPointRect(a, p), a)
    ensures a.valid ==> forall q :: Encloses(a, q) ==> Encloses(AddPointRect(a, p), q)
    ensures !a.valid ==> AddPointRect(a, p) == a
    ensures AddPointRect(a, p).valid == a.valid
  {
  }

  /** add grows the receiver to cover a valid argument, ignores an invalid
      one, and keeps the receiver's own flag. */
  lemma AddGrows(a: Rect, b: Rect)
    ensures Covers(AddRect(a, b), a)
    ensures b.valid ==> Covers(AddRect(a, b), b)
    ensures !b.valid ==> AddRect(a, b) == a
    ensures AddRect(a, b).valid == a.valid
  {
  }

  lemma CoversEncloses(r: Rect, s: Rect, p: Point)
    requires Covers(r, s) && Encloses(s, p)
    ensures Encloses(r, p)
  {
  }

  // ---------------------------------------------------------------------
  // Properties of the builders

  /** fromPath of a non-empty path is valid and its sides are exactly the
      minimum and maximum coordinates of the path; of an empty one it is
      Box.invalid(). */
  lemma {:induction false} PathRectExact(path: seq<Point>)
    ensures |path| == 0 ==> PathRect(path) == InvalidRect
    ensures |path| > 0 ==> PathRect(path).valid
    ensures forall k :: 0 <= k < |path| ==> Encloses(PathRect(path), path[k])
    ensures |path| > 0 ==> exists k :: 0 <= k < |path| && PathRect(path).left == path[k].x
    ensures |path| > 0 ==> exists k :: 0 <= k < |path| && PathRect(path).right == path[k].x
    ensures |path| > 0 ==> exists k :: 0 <= k < |path| && PathRect(path).top == path[k].y
    ensures |path| > 0 ==> exists k :: 0 <= k < |path| && PathRect(path).bottom == path[k].y
    decreases |path|
  {
    var n := |path|;
    if n > 1 {
      var init := path[..n - 1];
      PathRectExact(init);
      var r0 := PathRect(init);
      var r := PathRect(path);
      assert r == AddPointRect(r0, path[n - 1]);
      forall k | 0 <= k < n ensures Encloses(r, path[k]) {
        if k < n - 1 {
          assert path[k] == init[k];
          CoversEncloses(r, r0, path[k]);
        }
      }
      if r.left != path[n - 1].x {
        var k :| 0 <= k < n - 1 && r0.left == init[k].x;
        assert r.left == path[k].x;
      }
      if r.right != path[n - 1].x {
        var k :| 0 <= k < n - 1 && r0.right == init[k].x;
        assert r.right == path[k].x;
      }
      if r.top != path[n - 1].y {
        var k :| 0 <= k < n - 1 && r0.top == init[k].y;
        assert r.top == path[k].y;
      }
      if r.bottom != path[n - 1].y {
        var k :| 0 <= k < n - 1 && r0.bottom == init[k].y;
        assert r.bottom == path[k].y;
      }
    } else if n == 1 {
      assert PathRect(path) == PointRect(path[0]);
    }
  }

  /** fromPaths encloses every point of every path; it is valid exactly
      when the first path is non-empty. */
  lemma {:induction false} PathsRectEncloses(paths: seq<seq<Point>>)
    ensures PathsRect(paths).valid <==> |paths| > 0 && |paths[0]| > 0
    ensures forall i, k :: 0 <= i < |paths| && 0 <= k < |paths[i]| ==> Encloses(PathsRect(paths), paths[i][k])
    decreases |paths|
  {
    var n := |paths|;
    if n == 1 {
      PathRectExact(paths[0]);
    } else if n > 1 {
      var init := paths[..n - 1];
      PathsRectEncloses(init);
      PathRectExact(paths[n - 1]);
      var r0 := PathsRect(init);
      var last := PathRect(paths[n - 1]);
      var r := PathsRect(paths);
      AddGrows(r0, last);
      assert init[0] == paths[0];
      forall i, k | 0 <= i < n && 0 <= k < |paths[i]| ensures Encloses(r, paths[i][k]) {
        if i < n - 1 {
          assert paths[i] == init[i];
          CoversEncloses(r, r0, paths[i][k]);
        } else {
          CoversEncloses(r, last, paths[i][k]);
        }
      }
    }
  }

  /** The holes of a shape reach fromShape's box only when the first hole
      is non-empty (otherwise their folded box is invalid and add skips it). */
  predicate HolesCounted(shape: Shape) {
    |shape.holes| > 0 ==> |shape.holes[0]| > 0
  }

  /** fromShape encloses the polyline, and every hole when the first hole
      is non-empty; when the first hole is empty the holes are dropped. Its
      flag is that of the polyline's box. */
  lemma ShapeRectEncloses(shape: Shape)
    ensures ShapeRect(shape).valid <==> |shape.polyline| > 0
    ensures forall k :: 0 <= k < |shape.polyline| ==> Encloses(ShapeRect(shape), shape.polyline[k])
    ensures HolesCounted(shape) ==>
              forall i, k :: 0 <= i < |shape.holes| && 0 <= k < |shape.holes[i]| ==>
                Encloses(ShapeRect(shape), shape.holes[i][k])
    ensures !HolesCounted(shape) ==> ShapeRect(shape) == PathRect(shape.polyline)
  {
    PathRectExact(shape.polyline);
    PathsRectEncloses(shape.holes);
    var p := PathRect(shape.polyline);
    if |shape.holes| > 0 {
      var h := PathsRect(shape.holes);
      AddGrows(p, h);
      forall k | 0 <= k < |shape.polyline| ensures Encloses(ShapeRect(shape), shape.polyline[k]) {
        CoversEncloses(ShapeRect(shape), p, shape.polyline[k]);
      }
      if h.valid {
        forall i, k | 0 <= i < |shape.holes| && 0 <= k < |shape.holes[i]|
          ensures Encloses(ShapeRect(shape), shape.holes[i][k])
        {
          CoversEncloses(ShapeRect(shape), h, shape.holes[i][k]);
        }
      }
    }
  }

  /** fromShapes (js/box.js) encloses every polyline, and the holes of
      every shape with a non-empty polyline and first hole; its flag is
      that of the first shape's box. */
  lemma {:induction false} ShapesRectEncloses(shapes: seq<Shape>)
    ensures ShapesRect(shapes).valid <==> |shapes| > 0 && |shapes[0].polyline| > 0
    ensures forall i, k :: 0 <= i < |shapes| && 0 <= k < |shapes[i].polyline| ==>
              Encloses(ShapesRect(shapes), shapes[i].polyline[k])
    ensures forall i, j, k ::
              (0 <= i < |shapes| && |shapes[i].polyline| > 0 && HolesCounted(shapes[i]) &&
               0 <= j < |shapes[i].holes| && 0 <= k < |shapes[i].holes[j]|) ==>
              Encloses(ShapesRect(shapes), shapes[i].holes[j][k])
    decreases |shapes|
  {
    var n := |shapes|;
    if n == 1 {
      ShapeRectEncloses(shapes[0]);
    } else if n > 1 {
      var init := shapes[..n - 1];
      ShapesRectEncloses(init);
      ShapeRectEncloses(shapes[n - 1]);
      var r0 := ShapesRect(init);
      var last := ShapeRect(shapes[n - 1]);
      var r := ShapesRect(shapes);
      AddGrows(r0, last);
      assert init[0] == shapes[0];
      forall i, k | 0 <= i < n && 0 <= k < |shapes[i].polyline|
        ensures Encloses(r, shapes[i].polyline[k])
      {
        if i < n - 1 {
          assert shapes[i] == init[i];
          CoversEncloses(r, r0, shapes[i].polyline[k]);
        } else {
          CoversEncloses(r, last, shapes[i].polyline[k]);
        }
      }
      forall i, j, k | 0 <= i < n && |shapes[i].polyline| > 0 && HolesCounted(shapes[i]) &&
                       0 <= j < |shapes[i].holes| && 0 <= k < |shapes[i].holes[j]|
        ensures Encloses(r, shapes[i].holes[j][k])
      {
        if i < n - 1 {
          assert shapes[i] == init[i];
          CoversEncloses(r, r0, shapes[i].holes[j][k]);
        } else {
          CoversEncloses(r, last, shapes[i].holes[j][k]);
        }
      }
    }
  }

  /** fromShapes (js/SVGtoSTL.js) encloses every point of every ring of
      every shape whose first ring is non-empty; its flag is that of the
      first ring of the first shape. */
  lemma {:induction false} RingShapesRectEncloses(shapes: seq<seq<seq<Point>>>)
    ensures RingShapesRect(shapes).valid <==> |shapes| > 0 && |shapes[0]| > 0 && |shapes[0][0]| > 0
    ensures forall i, j, k :: 0 <= i < |shapes| && 0 <= j < |shapes[i]| && |shapes[i][0]| > 0 && 0 <= k < |shapes[i][j]| ==>
              Encloses(RingShapesRect(shapes), shapes[i][j][k])
    decreases |shapes|
  {
    var n := |shapes|;
    if n == 1 {
      PathsRectEncloses(shapes[0]);
    } else if n > 1 {
      var init := shapes[..n - 1];
      RingShapesRectEncloses(init);
      PathsRectEncloses(shapes[n - 1]);
      var r0 := RingShapesRect(init);
      var last := PathsRect(shapes[n - 1]);
      var r := RingShapesRect(shapes);
      AddGrows(r0, last);
      assert init[0] == shapes[0];
      forall i, j, k | 0 <= i < n && 0 <= j < |shapes[i]| && |shapes[i][0]| > 0 && 0 <= k < |shapes[i][j]|
        ensures Encloses(r, shapes[i][j][k])
      {
        if i < n - 1 {
          assert shapes[i] == init[i];
          CoversEncloses(r, r0, shapes[i][j][k]);
        } else {
          CoversEncloses(r, last, shapes[i][j][k]);
        }
      }
    }
  }

  /** The two fromShapes agree on a shape whose first hole is non-empty;
      box.js folds the holes into one box first, so when the first hole is
      empty it drops all the holes. */
  lemma ShapeRectMatchesRings(shape: Shape)
    requires |shape.holes| == 0 || |shape.holes[0]| > 0
    ensures ShapeRect(shape) == PathsRect([shape.polyline] + shape.holes)
  {
    PathsRectCons(shape.polyline, shape.holes);
    if |shape.holes| > 0 {
      AddAllAssociative(PathRect(shape.polyline), shape.holes);
    }
  }

  /** fromPaths of p followed by hs is p's box with each of hs added. */
  lemma {:induction false} PathsRectCons(p: seq<Point>, hs: seq<seq<Point>>)
    ensures PathsRect([p] + hs) == FoldAdd(PathRect(p), hs)
    decreases |hs|
  {
    if |hs| > 0 {
      var init := hs[..|hs| - 1];
      PathsRectCons(p, init);
      assert ([p] + hs)[..|hs|] == [p] + init;
    } else {
      assert [p] + hs == [p];
    }
  }

  /** Folding a list of path boxes whose first is valid into one box and
      adding it equals adding them one at a time. */
  lemma {:induction false} AddAllAssociative(a: Rect, holes: seq<seq<Point>>)
    requires |holes| > 0 && |holes[0]| > 0
    ensures AddRect(a, PathsRect(holes)) == FoldAdd(a, holes)
    decreases |holes|
  {
    var n := |holes|;
    if n > 1 {
      var init := holes[..n - 1];
      assert init[0] == holes[0];
      AddAllAssociative(a, init);
      PathsRectEncloses(init);
      AddRectAssoc(a, PathsRect(init), PathRect(holes[n - 1]));
    } else {
      assert holes[..0] == [];
    }
  }

  /** a.add(h0); a.add(h1); ... */
  function FoldAdd(a: Rect, holes: seq<seq<Point>>): Rect
    decreases |holes|
  {
    if |holes| == 0 then a else AddRect(FoldAdd(a, holes[..|holes| - 1]), PathRect(holes[|holes| - 1]))
  }

  lemma AddRectAssoc(a: Rect, b: Rect, c: Rect)
    requires b.valid
    ensures AddRect(a, AddRect(b, c)) == AddRect(AddRect(a, b), c)
  {
  }
}
