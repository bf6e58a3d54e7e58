/** SVG3DScene of js/SVGtoSTL.js: the discretized paths of a drawing with
    one depth per shape, and the steps that clean the rings, make them
    meet, put a base plate under them and extrude their triangulation into
    a closed mesh. */
module Scene {
  import opened Geometry
  import opened Boxes
  import opened Cleanup
  import opened Snapping
  import opened Fill
  import opened Meshes
  import opened Walls
  import opened Plate
  import opened Extrusion

  /** A number read from a property in JavaScript: undefined when the
      object has no such property. */
  datatype JsNumber = Undefined | Number(value: real)

  /** `shapes.depth` read on the list of shapes itself: a list has no
      property of that name. */
  function ListDepth(shapes: seq<FilledShape>): JsNumber {
    Undefined
  }

  class SVG3DScene {
    /** Shapes, each a list of rings (the contour, then the holes). */
    var paths: Paths
    /** The depth of each shape. */
    var depths: seq<real>
    /** The number of decimals kept (negative for no rounding). */
    var precision: int
    /** The triangulated shapes and silhouette of fillShapes. */
    var shapes: seq<FilledShape>
    var silhouetteShapes: seq<FilledShape>

    /** A scene over paths already discretized. */
    constructor (paths: Paths, depths: seq<real>, precision: int)
      ensures this.paths == paths && this.depths == depths && this.precision == precision
      ensures shapes == [] && silhouetteShapes == []
    {
      this.paths := paths;
      this.depths := depths;
      this.precision := precision;
      shapes := [];
      silhouetteShapes := [];
    }

    // -------------------------------------------------------------------
    // Cleaning and joining the rings

    /** Every ring without its consecutive repeated points: the first
        point is kept, what is kept keeps its order, and no two
        neighbours are equal. */
    static method RemoveConsecutiveDoubles(p: Paths) returns (r: Paths)
      ensures |r| == |p|
      ensures forall i :: 0 <= i < |p| ==> |r[i]| == |p[i]|
      ensures forall i, j :: 0 <= i < |p| && 0 <= j < |p[i]| ==> r[i][j] == Dedup(p[i][j])
      ensures forall i, j :: 0 <= i < |p| && 0 <= j < |p[i]| ==>
                Subseq(r[i][j], p[i][j]) && NoAdjacentDoubles(r[i][j])
    {
      r := p;
      var i := 0;
      while i < |r|
        invariant 0 <= i <= |r| == |p|
        invariant forall a :: 0 <= a < |p| ==> |r[a]| == |p[a]|
        invariant forall a, b :: 0 <= a < i && 0 <= b < |p[a]| ==> r[a][b] == Dedup(p[a][b])
        invariant forall a :: i <= a < |p| ==> r[a] == p[a]
      {
        var j := 0;
        while j < |r[i]|
          invariant i < |r| == |p| && 0 <= j <= |r[i]|
          invariant forall a :: 0 <= a < |p| ==> |r[a]| == |p[a]|
          invariant forall a, b :: 0 <= a < i && 0 <= b < |p[a]| ==> r[a][b] == Dedup(p[a][b])
          invariant forall b :: 0 <= b < j ==> r[i][b] == Dedup(p[i][b])
          invariant forall b :: j <= b < |p[i]| ==> r[i][b] == p[i][b]
          invariant forall a :: i < a < |p| ==> r[a] == p[a]
        {
          r := r[i := r[i][j := Dedup(r[i][j])]];
          j := j + 1;
        }
        i := i + 1;
      }
      forall i, j | 0 <= i < |p| && 0 <= j < |p[i]|
        ensures Subseq(r[i][j], p[i][j]) && NoAdjacentDoubles(r[i][j])
      {
        DedupProperties(p[i][j]);
      }
    }

    /** The path with the point inserted at the end of the first segment
        that passes within epsilon of it while both ends are farther, or
        the path unchanged when there is none. */
    method AddPointIfMissing(path: Ring, point: Point) returns (r: Ring)
      ensures r == InsertPoint(path, point, Epsilon(precision))
      ensures InsertedAtFirstHit(path, point, Epsilon(precision), r)
      ensures Subseq(path, r)
    {
      var epsilon := Epsilon(precision);
      r := path;
      if |path| > 1 {
        var i := 1;
        while i != |path|
          invariant 1 <= i <= |path|
          invariant InsertFrom(path, point, epsilon, i) == InsertPoint(path, point, epsilon)
          decreases |path| - i
        {
          var p1 := path[i - 1];
          var p2 := path[i];
          var dist := DistanceSqrdPointSegment(point, p1, p2, epsilon);
          if dist >= 0.0 && dist <= epsilon {
            var d1 := DistanceSqrd(point, p1);
            if d1 > epsilon {
              var d2 := DistanceSqrd(point, p2);
              if d2 > epsilon {
                assert SegmentHit(path, point, epsilon, i);
                r := path[..i] + [point] + path[i..];
                break;
              }
            }
          }
          assert !SegmentHit(path, point, epsilon, i);
          i := i + 1;
        }
      }
      InsertPointSpec(path, point, epsilon);
    }

    /** The innermost loop of addMissingPoints: the points of one ring of
        another shape offered to the ring, in order. */
    method OfferPoints(ring: Ring, pts: seq<Point>) returns (r: Ring)
      ensures r == FillRing(ring, pts, Epsilon(precision))
      ensures Subseq(ring, r)
    {
      var epsilon := Epsilon(precision);
      r := ring;
      var kk := 0;
      while kk != |pts|
        invariant 0 <= kk <= |pts|
        invariant r == FillRing(ring, pts[..kk], epsilon)
      {
        FillRingSnoc(ring, pts[..kk], pts[kk], epsilon);
        assert pts[..kk + 1] == pts[..kk] + [pts[kk]];
        r := AddPointIfMissing(r, pts[kk]);
        kk := kk + 1;
      }
      assert pts[..kk] == pts;
      FillRingSpec(ring, pts, epsilon);
    }

    /** The two inner loops of addMissingPoints: the points of every ring
        of another shape offered to the ring, in order. */
    method OfferShape(ring: Ring, shape: seq<Ring>) returns (r: Ring)
      ensures r == FillRing(ring, FlatUpTo(shape, |shape|), Epsilon(precision))
    {
      var epsilon := Epsilon(precision);
      r := ring;
      var jj := 0;
      while jj != |shape|
        invariant 0 <= jj <= |shape|
        invariant r == FillRing(ring, FlatUpTo(shape, jj), epsilon)
      {
        r := OfferPoints(r, shape[jj]);
        FillRingAppend(ring, FlatUpTo(shape, jj), shape[jj], epsilon);
        jj := jj + 1;
      }
    }

    /** The loops of addMissingPoints for ring j of shape i: every point of
        every other shape, in order, offered to the ring. */
    method AddPointsOfOtherShapes(ps: Paths, i: nat, j: nat) returns (r: Ring)
      requires i < |ps| && j < |ps[i]|
      ensures r == FillRing(ps[i][j], OtherPointsUpTo(ps, i, |ps|), Epsilon(precision))
    {
      var epsilon := Epsilon(precision);
      r := ps[i][j];
      var ii := 0;
      while ii != |ps|
        invariant 0 <= ii <= |ps|
        invariant r == FillRing(ps[i][j], OtherPointsUpTo(ps, i, ii), epsilon)
      {
        var next := r;
        if ii != i {
          next := OfferShape(r, ps[ii]);
        }
        OtherPointsNext(ps, i, ii, ps[i][j], epsilon, r, next);
        r := next;
        ii := ii + 1;
      }
    }

    /** The rings of shape i, in order, each receiving the points of the
        other shapes; ps is what the rings before shape i have become. */
    method FillShapeRings(ghost p0: Paths, ps: Paths, i: nat) returns (qs: Paths)
      requires i < |p0| && ps == FilledUpTo(p0, Epsilon(precision), i)
      ensures qs == FilledUpTo(p0, Epsilon(precision), i + 1)
    {
      var epsilon := Epsilon(precision);
      RingIdsFacts(p0, i);
      RingsBeforeEnds(p0, i);
      qs := ps;
      var n := |qs[i]|;
      var j := 0;
      while j != n
        invariant n == |p0[i]| && 0 <= j <= n && SameRings(qs, p0)
        invariant qs == FillFold(p0, epsilon, RingsBefore(p0, i, j))
      {
        var r := AddPointsOfOtherShapes(qs, i, j);
        FillFoldNext(p0, epsilon, i, j, qs, r);
        qs := qs[i := qs[i][j := r]];
        j := j + 1;
      }
      RingIdsFacts(p0, i + 1);
    }

    /** addMissingPoints: every ring, in order, receives the points of the
        other shapes. Rings only grow, and no point is created. */
    method AddMissingPoints()
      modifies this`paths
      ensures paths == FillAll(old(paths), Epsilon(precision))
      ensures RingsGrow(old(paths), paths)
      ensures PointSet(paths) == PointSet(old(paths))
    {
      var ps := FillShapes(paths);
      FilledAll(old(paths), Epsilon(precision), ps);
      paths := ps;
    }

    /** The outer loop of addMissingPoints, over the shapes. */
    method FillShapes(p0: Paths) returns (ps: Paths)
      ensures ps == FilledUpTo(p0, Epsilon(precision), |p0|)
    {
      ps := p0;
      var i := 0;
      while i != |p0|
        invariant 0 <= i <= |p0|
        invariant ps == FilledUpTo(p0, Epsilon(precision), i)
      {
        ps := FillShapeRings(p0, ps, i);
        i := i + 1;
      }
    }

    // -------------------------------------------------------------------
    // Snapping close points together

    /** getSimilarPointsToFirst for the point ref with the points of marks
        already seen: from every ring after ref's, the nearest unseen point
        closer than distance to the target (the running sum as written,
        the point itself when fixedRef), added to the cluster and marked. */
    method GetSimilarPointsToFirst(ref: Pid, distance: real, fixedRef: bool, marks: set<Pid>) returns (s: Search)
      requires ValidPid(paths, ref)
      ensures s == ToFirst(paths, ref, distance, fixedRef, marks)
      ensures SearchInv(paths, ref, marks, RingIdsUpTo(paths, |paths|), s)
    {
      var ps := paths;
      s := Search(Sim(ps[ref.shape][ref.ring][ref.index], [ref]), marks);
      var i := ref.shape;
      RingIdsFacts(ps, i);
      SearchFoldSkips(ps, ref, distance, fixedRef, StartSearch(ps, ref, marks), RingIdsUpTo(ps, i));
      while i != |ps|
        invariant ref.shape <= i <= |ps|
        invariant s == SearchUpTo(ps, ref, distance, fixedRef, marks, i)
      {
        s := SearchShape(ps, ref, distance, fixedRef, marks, s, i);
        i := i + 1;
      }
      ToFirstSpec(ps, ref, distance, fixedRef, marks);
    }

    /** The rings of shape i in getSimilarPointsToFirst (from its own ring
        on, for the reference point's shape). */
    static method SearchShape(ps: Paths, ref: Pid, distance: real, fixedRef: bool, marks: set<Pid>, s0: Search, i: nat)
        returns (s: Search)
      requires ValidPid(ps, ref) && ref.shape <= i < |ps|
      requires s0 == SearchUpTo(ps, ref, distance, fixedRef, marks, i)
      ensures s == SearchUpTo(ps, ref, distance, fixedRef, marks, i + 1)
    {
      s := s0;
      var j := if i == ref.shape then ref.ring else 0;
      SearchShapeStart(ps, ref, distance, fixedRef, marks, s0, i);
      while j != |ps[i]|
        invariant j <= |ps[i]| && (i == ref.shape ==> ref.ring <= j)
        invariant s == ShapeSearch(ps, ref, distance, fixedRef, marks, i, j)
      {
        s := SearchShapeRing(ps, ref, distance, fixedRef, marks, s, i, j);
        j := j + 1;
      }
      SearchShapeEnd(ps, ref, distance, fixedRef, marks, s, i);
    }

    /** The body of the ring loop of getSimilarPointsToFirst: ring j of
        shape i is searched unless it is the reference point's own. */
    static method SearchShapeRing(ps: Paths, ref: Pid, distance: real, fixedRef: bool, ghost marks: set<Pid>, s0: Search, i: nat, j: nat)
        returns (s: Search)
      requires ValidPid(ps, ref) && ref.shape <= i < |ps| && j < |ps[i]| && (i == ref.shape ==> ref.ring <= j)
      requires s0 == ShapeSearch(ps, ref, distance, fixedRef, marks, i, j)
      ensures s == ShapeSearch(ps, ref, distance, fixedRef, marks, i, j + 1)
    {
      s := s0;
      SearchRingNext(ps, ref, distance, fixedRef, marks, s, i, j);
      if i != ref.shape || j != ref.ring {
        s := SearchRing(ps, ref, distance, fixedRef, s, RingId(i, j));
      }
    }

    /** One ring r after the reference point's in getSimilarPointsToFirst:
        its nearest candidate, if any, joins the cluster and is marked. */
    static method SearchRing(ps: Paths, ref: Pid, distance: real, fixedRef: bool, s0: Search, r: RingId) returns (s: Search)
      requires ValidPid(ps, ref) && ValidRing(ps, r) && RingLt(RingOf(ref), r)
      ensures s == RingStep(ps, ref, distance, fixedRef, s0, r)
    {
      s := s0;
      var target := if fixedRef then ps[ref.shape][ref.ring][ref.index] else s.sim.middle;
      var bestID, bestDist := PickNearest(ps, r, target, distance, s.marks);
      if bestID >= 0 {
        var p := Pid(r.shape, r.ring, bestID);
        var pt := ps[r.shape][r.ring][bestID];
        s := Search(Sim(Point(s.sim.middle.x + pt.x, s.sim.middle.y + pt.y), s.sim.pts + [p]), s.marks + {p});
      }
    }

    /** The innermost loop of getSimilarPointsToFirst: over ring r, the
        first unmarked point strictly nearest to target among those closer
        than distance (bestID -1 when there is none). */
    static method PickNearest(ps: Paths, r: RingId, target: Point, distance: real, marks: set<Pid>)
        returns (bestID: int, bestDist: real)
      requires ValidRing(ps, r)
      ensures Best(bestID, bestDist) == PickUpTo(ps, r, target, distance, marks, |RingAt(ps, r)|)
    {
      var ring := ps[r.shape][r.ring];
      bestID, bestDist := -1, -1.0;
      var k := 0;
      while k != |ring|
        invariant 0 <= k <= |ring|
        invariant Best(bestID, bestDist) == PickUpTo(ps, r, target, distance, marks, k)
      {
        if Pid(r.shape, r.ring, k) !in marks {
          var dist := DistanceSqrd(ring[k], target);
          if dist < distance && (bestID < 0 || bestDist > dist) {
            bestID := k;
            bestDist := dist;
          }
        }
        k := k + 1;
      }
    }

    /** getSimilarPoints: a search from every point not yet seen, in
        visiting order, keeping each cluster of two points or more with
        its middle divided into their mean. */
    method GetSimilarPoints(distance: real, fixedRef: bool) returns (similarPoints: seq<Sim>)
      ensures similarPoints == SimilarPoints(paths, distance, fixedRef).clusters
      ensures Disjoint(similarPoints)
      ensures forall c :: 0 <= c < |similarPoints| ==> GoodCluster(paths, similarPoints[c])
    {
      var g := GatherAll(distance, fixedRef);
      SimilarPointsSpec(paths, distance, fixedRef);
      similarPoints := g.clusters;
    }

    /** The three loops of getSimilarPoints, over every point in visiting
        order. */
    method GatherAll(distance: real, fixedRef: bool) returns (g: Gather)
      ensures g == SimilarPoints(paths, distance, fixedRef)
    {
      g := Gather([], {});
      assert PidsUpTo(paths, 0) == [];
      var i := 0;
      while i != |paths|
        invariant 0 <= i <= |paths|
        invariant forall p :: p in PidsUpTo(paths, i) ==> ValidPid(paths, p)
        invariant g == GatherFold(paths, distance, fixedRef, Gather([], {}), PidsUpTo(paths, i))
      {
        g := GatherShape(distance, fixedRef, g, i);
        i := i + 1;
      }
    }

    /** The two inner loops of getSimilarPoints over shape i. */
    method GatherShape(distance: real, fixedRef: bool, g0: Gather, i: nat) returns (g: Gather)
      requires i < |paths| && forall p :: p in PidsUpTo(paths, i) ==> ValidPid(paths, p)
      requires g0 == GatherFold(paths, distance, fixedRef, Gather([], {}), PidsUpTo(paths, i))
      ensures forall p :: p in PidsUpTo(paths, i + 1) ==> ValidPid(paths, p)
      ensures g == GatherFold(paths, distance, fixedRef, Gather([], {}), PidsUpTo(paths, i + 1))
    {
      g := g0;
      assert PidsThrough(paths, i, 0) == PidsUpTo(paths, i);
      var j := 0;
      while j != |paths[i]|
        invariant 0 <= j <= |paths[i]|
        invariant g == GatherFold(paths, distance, fixedRef, Gather([], {}), PidsThrough(paths, i, j))
      {
        PidsBeforeEnds(paths, i, j);
        g := GatherRing(distance, fixedRef, g, i, j);
        j := j + 1;
      }
      PidsFacts(paths, i + 1);
    }

    /** The innermost loop of getSimilarPoints over ring j of shape i: a
        search from every point of the ring not yet seen. */
    method GatherRing(distance: real, fixedRef: bool, g0: Gather, i: nat, j: nat) returns (g: Gather)
      requires i < |paths| && j < |paths[i]|
      requires g0 == GatherFold(paths, distance, fixedRef, Gather([], {}), PidsBefore(paths, i, j, 0))
      ensures g == GatherFold(paths, distance, fixedRef, Gather([], {}), PidsBefore(paths, i, j, |paths[i][j]|))
    {
      g := g0;
      var k := 0;
      while k != |paths[i][j]|
        invariant 0 <= k <= |paths[i][j]|
        invariant g == GatherFold(paths, distance, fixedRef, Gather([], {}), PidsBefore(paths, i, j, k))
      {
        PidsBeforeStep(paths, i, j, k);
        GatherFoldSnoc(paths, distance, fixedRef, Gather([], {}), PidsBefore(paths, i, j, k), Pid(i, j, k));
        if Pid(i, j, k) !in g.marks {
          var sim := GetSimilarPointsToFirst(Pid(i, j, k), distance, fixedRef, g.marks);
          if |sim.sim.pts| > 1 {
            var n := |sim.sim.pts| as real;
            g := Gather(g.clusters + [Sim(Point(sim.sim.middle.x / n, sim.sim.middle.y / n), sim.sim.pts)], sim.marks);
          } else {
            g := Gather(g.clusters, sim.marks);
          }
        }
        k := k + 1;
      }
    }

    /** stickSimilarCurves: every point of every cluster set to the
        cluster's mean. */
    method StickSimilarCurves(distance: real, fixedRef: bool)
      modifies this`paths
      ensures paths == Snapped(old(paths), distance, fixedRef)
    {
      var similarPoints := GetSimilarPoints(distance, fixedRef);
      var ps := paths;
      ghost var p0 := ps;
      ClustersValid(p0, similarPoints);
      var p := 0;
      while p != |similarPoints|
        invariant 0 <= p <= |similarPoints|
        invariant ps == StickUpTo(p0, similarPoints, p)
      {
        StickUpToNext(p0, similarPoints, p);
        ps := StickCluster(ps, similarPoints[p]);
        p := p + 1;
      }
      paths := ps;
    }

    /** The inner loop of stickSimilarCurves: every point of one cluster
        set to its middle. */
    static method StickCluster(ps: Paths, sim: Sim) returns (r: Paths)
      requires forall q :: q in sim.pts ==> ValidPid(ps, q)
      ensures r == StickPts(ps, sim.pts, sim.middle)
    {
      r := ps;
      var j := 0;
      while j != |sim.pts|
        invariant 0 <= j <= |sim.pts|
        invariant r == StickPts(ps, sim.pts[..j], sim.middle)
      {
        var id := sim.pts[j];
        assert sim.pts[..j + 1][..j] == sim.pts[..j];
        assert ValidPid(r, id);
        r := r[id.shape := r[id.shape][id.ring := r[id.shape][id.ring][id.index := sim.middle]]];
        j := j + 1;
      }
      assert sim.pts[..j] == sim.pts;
    }

    // -------------------------------------------------------------------
    // The base plate

    /** addBasePlate for a rectangular or squared plate: the box of the
        document (or of the shapes when its margins are ignored), grown by
        the buffer and squared when asked, becomes a closed ring of its
        four corners, put first as a shape of depth 0. A plate the source
        would build from a missing viewBox entry or a buffer divided by a
        zero object width has no finite corner; it is reported by ok unset
        and nothing is stored. */
    method AddBasePlate(viewBox: seq<real>, ignoreDocumentMargins: bool, baseBuffer: real, objectWidth: real,
                        basePlateShape: PlateShape) returns (ok: bool)
      modifies this`paths, this`depths
      ensures ok <==> (ignoreDocumentMargins || |viewBox| >= 4) && FiniteBuffer(baseBuffer, objectWidth)
      ensures ok ==> paths == [[PlateRing(PlateRect(if ignoreDocumentMargins then RingShapesRect(old(paths))
                                                    else Rect(viewBox[0], viewBox[2], viewBox[1], viewBox[3], true),
                                                    basePlateShape, baseBuffer, objectWidth))]] + old(paths)
      ensures ok ==> depths == [0.0] + old(depths)
      ensures !ok ==> paths == old(paths) && depths == old(depths)
    {
      if !ignoreDocumentMargins && |viewBox| < 4 {
        return false;
      }
      var bbox: Box;
      if ignoreDocumentMargins {
        bbox := Box.FromRingShapes(paths);
      } else {
        bbox := new Box(viewBox[0], viewBox[2], viewBox[1], viewBox[3]);
      }
      ghost var r0 := bbox.Value();
      assert r0 == if ignoreDocumentMargins then RingShapesRect(old(paths))
                   else Rect(viewBox[0], viewBox[2], viewBox[1], viewBox[3], true);
      ok := BufferBox(bbox, baseBuffer, objectWidth);
      if !ok {
        return;
      }
      if basePlateShape == Squared {
        SquareBox(bbox);
      }
      assert bbox.Value() == PlateRect(r0, basePlateShape, baseBuffer, objectWidth);
      var plate := [Point(bbox.left, bbox.bottom), Point(bbox.right, bbox.bottom),
                    Point(bbox.right, bbox.top), Point(bbox.left, bbox.top)];
      plate := plate + [plate[0]];
      assert plate == PlateRing(bbox.Value());
      paths := [[plate]] + paths;
      depths := [0.0] + depths;
    }

    /** The buffer step of addBasePlate: every side of the box moved out by
        baseBuffer / objectWidth times its width, when baseBuffer > 0. */
    static method BufferBox(bbox: Box, baseBuffer: real, objectWidth: real) returns (ok: bool)
      modifies bbox
      ensures ok <==> FiniteBuffer(baseBuffer, objectWidth)
      ensures ok ==> bbox.Value() == Buffered(old(bbox.Value()), baseBuffer, objectWidth)
      ensures !ok ==> bbox.Value() == old(bbox.Value())
    {
      ok := FiniteBuffer(baseBuffer, objectWidth);
      if baseBuffer > 0.0 && ok {
        var buffer := baseBuffer / objectWidth * (bbox.right - bbox.left);
        bbox.left := bbox.left - buffer;
        bbox.top := bbox.top - buffer;
        bbox.right := bbox.right + buffer;
        bbox.bottom := bbox.bottom + buffer;
      }
    }

    /** The Squared step of addBasePlate: the box becomes the square around
        its centre whose side is its larger side. */
    static method SquareBox(bbox: Box)
      modifies bbox
      ensures bbox.Value() == SquaredRect(old(bbox.Value()))
    {
      var width := bbox.right - bbox.left;
      var height := bbox.bottom - bbox.top;
      var middle := Point((bbox.left + bbox.right) / 2.0, (bbox.bottom + bbox.top) / 2.0);
      var halfSize := (if width > height then width else height) / 2.0;
      bbox.left := middle.x - halfSize;
      bbox.right := middle.x + halfSize;
      bbox.top := middle.y - halfSize;
      bbox.bottom := middle.y + halfSize;
    }

    // -------------------------------------------------------------------
    // Extrusion

    /** minShapeDepth as written: the test reads the depth of the list of
        shapes rather than of shape i, which is undefined and never less
        than d, so the result is always 0. */
    method MinShapeDepthAsWritten() returns (d: real)
      ensures d == 0.0
    {
      d := 0.0;
      var i := 0;
      while i != |shapes|
        invariant 0 <= i <= |shapes| && d == 0.0
      {
        match ListDepth(shapes) {
          case Number(v) =>
            if v < d {
              d := v;
            }
          case Undefined =>
        }
        i := i + 1;
      }
    }

    /** minShapeDepth as intended: the smallest depth of the shapes, or 0
        when none is negative. */
    method MinShapeDepth() returns (d: real)
      ensures d == MinDepth(shapes, |shapes|)
      ensures d <= 0.0 && forall i :: 0 <= i < |shapes| ==> d <= shapes[i].depth
    {
      d := 0.0;
      var i := 0;
      while i != |shapes|
        invariant 0 <= i <= |shapes| && d == MinDepth(shapes, i)
      {
        if shapes[i].depth < d {
          d := shapes[i].depth;
        }
        i := i + 1;
      }
      MinDepthSpec(shapes, |shapes|);
    }

    /** createUpperPart: the points of every shape at its depth, then its
        triangles with the last two corners swapped and the ids shifted
        past the points of the shapes before it. */
    method CreateUpperPart(geometry: Mesh) returns (r: Mesh)
      ensures r == Mesh(geometry.vertices + VerticesUpTo(shapes, |shapes|, OwnDepth),
                        geometry.faces + FacesUpTo(shapes, |shapes|, 0, true))
    {
      var vertices := PushVertices(geometry.vertices, shapes, OwnDepth);
      var faces := PushFaces(geometry.faces, shapes, 0, true);
      r := Mesh(vertices, faces);
    }

    /** createLowerPart: the points of every silhouette shape at the height
        of the base, baseDepth below minShapeDepth, then its triangles in
        their own corner order, the ids shifted past the vertices already
        in the geometry and the silhouette points before it. With intended
        unset the written minShapeDepth (always 0) is used, otherwise the
        corrected one. */
    method CreateLowerPart(geometry: Mesh, baseDepth: real, intended: bool) returns (r: Mesh)
      ensures r == Mesh(geometry.vertices + VerticesUpTo(silhouetteShapes, |silhouetteShapes|, Flat(BaseHeight(shapes, baseDepth, intended))),
                        geometry.faces + FacesUpTo(silhouetteShapes, |silhouetteShapes|, |geometry.vertices|, false))
    {
      var minDepth: real;
      if intended {
        minDepth := MinShapeDepth();
      } else {
        minDepth := MinShapeDepthAsWritten();
      }
      var underFaceZ := minDepth - baseDepth;
      var idPointsAfterUp := |geometry.vertices|;
      var vertices := PushVertices(geometry.vertices, silhouetteShapes, Flat(underFaceZ));
      var faces := PushFaces(geometry.faces, silhouetteShapes, idPointsAfterUp, false);
      r := Mesh(vertices, faces);
    }

    /** The vertex loop of both parts: the points of every shape, lifted to
        its height. */
    static method PushVertices(vertices: seq<Vertex3>, shapes: seq<FilledShape>, level: Level) returns (r: seq<Vertex3>)
      ensures r == vertices + VerticesUpTo(shapes, |shapes|, level)
    {
      r := vertices;
      var i := 0;
      while i != |shapes|
        invariant 0 <= i <= |shapes|
        invariant r == vertices + VerticesUpTo(shapes, i, level)
      {
        VerticesSnoc(vertices, shapes, i, level);
        var z := match level case OwnDepth => shapes[i].depth case Flat(h) => h;
        r := LiftPoints(r, shapes[i].points, z);
        i := i + 1;
      }
    }

    /** The face loop of both parts: the triangles of every shape, shifted
        past base and the points of the shapes before it. */
    static method PushFaces(faces: seq<Face>, shapes: seq<FilledShape>, base: nat, flip: bool) returns (r: seq<Face>)
      ensures r == faces + FacesUpTo(shapes, |shapes|, base, flip)
    {
      r := faces;
      var idPoints := 0;
      var i := 0;
      while i != |shapes|
        invariant 0 <= i <= |shapes| && idPoints == PointCount(shapes, i)
        invariant r == faces + FacesUpTo(shapes, i, base, flip)
      {
        var next := ShiftFaces(r, shapes[i].faces, base + idPoints, flip);
        FacesStep(faces, r, next, shapes, i, base, flip);
        r := next;
        idPoints := idPoints + |shapes[i].points|;
        i := i + 1;
      }
    }

    /** The inner vertex loop of both parts: the points of one shape pushed
        at height z. */
    static method LiftPoints(vertices: seq<Vertex3>, points: seq<Point>, z: real) returns (r: seq<Vertex3>)
      ensures r == vertices + Lift(points, z)
    {
      r := vertices;
      var j := 0;
      while j != |points|
        invariant 0 <= j <= |points|
        invariant r == vertices + Lift(points[..j], z)
      {
        LiftSnoc(points, z, j);
        r := r + [Vertex3(points[j].x, points[j].y, z)];
        j := j + 1;
      }
      assert points[..j] == points;
    }

    /** The inner face loop of both parts: the triangles of one shape
        pushed with their ids shifted by off, the last two corners swapped
        when flip is set (the upper part). */
    static method ShiftFaces(faces: seq<Face>, sfaces: seq<Face>, off: nat, flip: bool) returns (r: seq<Face>)
      ensures r == faces + ShiftAll(sfaces, off, flip)
    {
      r := faces;
      var j := 0;
      while j != |sfaces|
        invariant 0 <= j <= |sfaces|
        invariant r == faces + ShiftAll(sfaces[..j], off, flip)
      {
        ShiftAllSnoc(sfaces, off, flip, j);
        var f := sfaces[j];
        if flip {
          r := r + [Face(f.a + off, f.c + off, f.b + off)];
        } else {
          r := r + [Face(f.a + off, f.b + off, f.c + off)];
        }
        j := j + 1;
      }
      assert sfaces[..j] == sfaces;
    }

    /** The store of the two fillShapes results in create3DShape; the
        triangulated shapes are given, the triangulator being outside the
        model. */
    method SetFilledShapes(filled: seq<FilledShape>, silhouette: seq<FilledShape>)
      modifies this`shapes, this`silhouetteShapes
      ensures shapes == filled && silhouetteShapes == silhouette
      ensures paths == old(paths) && depths == old(depths) && precision == old(precision)
    {
      shapes := filled;
      silhouetteShapes := silhouette;
    }

    /** create3DFromShapes: upper part, lower part at the written or the
        intended base height, then the side walls along the boundary;
        every triangle names a vertex of the mesh. */
    method Create3DFromShapes(baseDepth: real, intended: bool) returns (geometry: Mesh)
      requires ShapesValid(shapes) && ShapesValid(silhouetteShapes)
      ensures var e := Extruded(shapes, silhouetteShapes, BaseHeight(shapes, baseDepth, intended));
        FacesValid(e) && geometry == Mesh(e.vertices, e.faces + SideWalls(e)) && FacesValid(geometry)
    {
      var upper := CreateUpperPart(Mesh([], []));
      var lower := CreateLowerPart(upper, baseDepth, intended);
      ExtrudedFromParts(shapes, silhouetteShapes, BaseHeight(shapes, baseDepth, intended), upper, lower);
      geometry := AddSides(lower);
      ghost var e := Extruded(shapes, silhouetteShapes, BaseHeight(shapes, baseDepth, intended));
      assert e == lower;
      WithSides(e, lower, geometry);
    }
  }

  /** The two parts make the extruded mesh, whose triangles, walls included,
      name vertices of the mesh. */
  lemma ExtrudedFromParts(shapes: seq<FilledShape>, silhouette: seq<FilledShape>, z: real, upper: Mesh, lower: Mesh)
    requires ShapesValid(shapes) && ShapesValid(silhouette)
    requires upper == Mesh([] + VerticesUpTo(shapes, |shapes|, OwnDepth), [] + FacesUpTo(shapes, |shapes|, 0, true))
    requires lower == Mesh(upper.vertices + VerticesUpTo(silhouette, |silhouette|, Flat(z)),
                           upper.faces + FacesUpTo(silhouette, |silhouette|, |upper.vertices|, false))
    ensures lower == Extruded(shapes, silhouette, z) && FacesValid(lower)
  {
    VerticesCount(shapes, |shapes|, OwnDepth);
    assert [] + VerticesUpTo(shapes, |shapes|, OwnDepth) == VerticesUpTo(shapes, |shapes|, OwnDepth);
    assert [] + FacesUpTo(shapes, |shapes|, 0, true) == FacesUpTo(shapes, |shapes|, 0, true);
    ExtrudedValid(shapes, silhouette, z);
  }

  /** The walls added to a valid mesh name vertices of the mesh. */
  lemma WithSides(e: Mesh, lower: Mesh, geometry: Mesh)
    requires lower == e && FacesValid(lower)
    requires geometry == Mesh(lower.vertices, lower.faces + SideWalls(lower))
    ensures FacesValid(e) && geometry == Mesh(e.vertices, e.faces + SideWalls(e)) && FacesValid(geometry)
  {
    SideWallsValid(lower);
  }
}
