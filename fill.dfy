/** addMissingPoints of SVG3DScene (js/SVGtoSTL.js) as a function of the
    paths: every ring, in visiting order, receives in turn every point of
    every other shape, each inserted by addPointIfMissing where it lies on
    a segment of the ring. */
module Fill {
  import opened Geometry
  import opened Cleanup
  import opened Snapping

  // ---------------------------------------------------------------------
  // addPointIfMissing

  /** The loop of addPointIfMissing from segment i on. */
  function InsertFrom(path: Ring, point: Point, epsilon: real, i: nat): Ring
    requires 1 <= i <= |path| && epsilon >= 0.0
    decreases |path| - i
  {
    if i == |path| then path
    else if SegmentHit(path, point, epsilon, i) then path[..i] + [point] + path[i..]
    else InsertFrom(path, point, epsilon, i + 1)
  }

  /** The ring addPointIfMissing returns. */
  function InsertPoint(path: Ring, point: Point, epsilon: real): Ring
    requires epsilon >= 0.0
  {
    if |path| <= 1 then path else InsertFrom(path, point, epsilon, 1)
  }

  lemma {:induction false} InsertFromSpec(path: Ring, point: Point, epsilon: real, i: nat)
    requires 1 <= i <= |path| && epsilon >= 0.0
    requires forall g :: 1 <= g < i ==> !SegmentHit(path, point, epsilon, g)
    ensures InsertedAtFirstHit(path, point, epsilon, InsertFrom(path, point, epsilon, i))
    decreases |path| - i
  {
    if i < |path| {
      if SegmentHit(path, point, epsilon, i) {
        assert 1 <= i < |path| && SegmentHit(path, point, epsilon, i);
      } else {
        InsertFromSpec(path, point, epsilon, i + 1);
      }
    }
  }

  /** Where InsertFrom puts the point, when it inserts it. */
  lemma {:induction false} InsertFromShape(path: Ring, point: Point, epsilon: real, i: nat) returns (h: nat)
    requires 1 <= i <= |path| && epsilon >= 0.0
    ensures InsertFrom(path, point, epsilon, i) == path ||
            (i <= h < |path| && InsertFrom(path, point, epsilon, i) == path[..h] + [point] + path[h..])
    decreases |path| - i
  {
    h := i;
    if i < |path| && !SegmentHit(path, point, epsilon, i) {
      h := InsertFromShape(path, point, epsilon, i + 1);
    }
  }

  lemma InsertedMembers(path: Ring, point: Point, h: nat, x: Point)
    requires h <= |path| && x in path[..h] + [point] + path[h..]
    ensures x in path || x == point
  {
    var r := path[..h] + [point] + path[h..];
    var k :| 0 <= k < |r| && r[k] == x;
    if k < h {
      assert x == path[k];
    } else if k > h {
      assert x == path[k - 1];
    }
  }

  /** addPointIfMissing inserts the point at the end of the first segment
      it hits, or leaves the ring alone; either way the old ring is a
      subsequence of the new one, and the new one holds nothing else. */
  lemma InsertPointSpec(path: Ring, point: Point, epsilon: real)
    requires epsilon >= 0.0
    ensures InsertedAtFirstHit(path, point, epsilon, InsertPoint(path, point, epsilon))
    ensures Subseq(path, InsertPoint(path, point, epsilon))
    ensures forall x :: x in InsertPoint(path, point, epsilon) ==> x in path || x == point
  {
    var r := InsertPoint(path, point, epsilon);
    if |path| <= 1 {
      SubseqRefl(path);
    } else {
      InsertFromSpec(path, point, epsilon, 1);
      var h := InsertFromShape(path, point, epsilon, 1);
      if r == path {
        SubseqRefl(path);
      } else {
        SubseqInsert(path, h, point);
        forall x | x in r ensures x in path || x == point {
          InsertedMembers(path, point, h, x);
        }
      }
    }
  }

  /** The ring after every point of pts was offered to it, in order. */
  function FillRing(ring: Ring, pts: seq<Point>, epsilon: real): Ring
    requires epsilon >= 0.0
    decreases |pts|
  {
    if |pts| == 0 then ring
    else InsertPoint(FillRing(ring, pts[..|pts| - 1], epsilon), pts[|pts| - 1], epsilon)
  }

  lemma FillRingSnoc(ring: Ring, pts: seq<Point>, p: Point, epsilon: real)
    requires epsilon >= 0.0
    ensures FillRing(ring, pts + [p], epsilon) == InsertPoint(FillRing(ring, pts, epsilon), p, epsilon)
  {
    assert (pts + [p])[..|pts|] == pts;
  }

  /** Offering a then b is offering a + b. */
  lemma {:induction false} FillRingAppend(ring: Ring, a: seq<Point>, b: seq<Point>, epsilon: real)
    requires epsilon >= 0.0
    ensures FillRing(FillRing(ring, a, epsilon), b, epsilon) == FillRing(ring, a + b, epsilon)
    decreases |b|
  {
    if |b| == 0 {
      assert a + b == a;
    } else {
      var init := b[..|b| - 1];
      FillRingAppend(ring, a, init, epsilon);
      assert (a + b)[..|a + b| - 1] == a + init;
      assert (a + b)[|a + b| - 1] == b[|b| - 1];
    }
  }

  /** The ring after shape n is offered: unchanged for its own shape. */
  lemma OtherPointsNext(paths: Paths, i: nat, n: nat, ring: Ring, epsilon: real, r: Ring, next: Ring)
    requires n < |paths| && epsilon >= 0.0
    requires r == FillRing(ring, OtherPointsUpTo(paths, i, n), epsilon)
    requires next == if n == i then r else FillRing(r, FlatUpTo(paths[n], |paths[n]|), epsilon)
    ensures next == FillRing(ring, OtherPointsUpTo(paths, i, n + 1), epsilon)
  {
    OtherPointsStep(paths, i, n, ring, epsilon);
  }

  /** Offering the points of shape n (none when n is the ring's own
      shape) after those of the shapes before it. */
  lemma OtherPointsStep(paths: Paths, i: nat, n: nat, ring: Ring, epsilon: real)
    requires n < |paths| && epsilon >= 0.0
    ensures FillRing(ring, OtherPointsUpTo(paths, i, n + 1), epsilon) ==
            if n == i then FillRing(ring, OtherPointsUpTo(paths, i, n), epsilon)
            else FillRing(FillRing(ring, OtherPointsUpTo(paths, i, n), epsilon), FlatUpTo(paths[n], |paths[n]|), epsilon)
  {
    if n != i {
      FillRingAppend(ring, OtherPointsUpTo(paths, i, n), FlatUpTo(paths[n], |paths[n]|), epsilon);
    } else {
      assert OtherPointsUpTo(paths, i, n + 1) == OtherPointsUpTo(paths, i, n) + [];
      assert OtherPointsUpTo(paths, i, n) + [] == OtherPointsUpTo(paths, i, n);
    }
  }

  lemma {:induction false} FillRingSpec(ring: Ring, pts: seq<Point>, epsilon: real)
    requires epsilon >= 0.0
    ensures Subseq(ring, FillRing(ring, pts, epsilon))
    ensures forall x :: x in FillRing(ring, pts, epsilon) ==> x in ring || x in pts
    decreases |pts|
  {
    if |pts| == 0 {
      SubseqRefl(ring);
    } else {
      var init := pts[..|pts| - 1];
      var prev := FillRing(ring, init, epsilon);
      FillRingSpec(ring, init, epsilon);
      InsertPointSpec(prev, pts[|pts| - 1], epsilon);
      SubseqTrans(ring, prev, FillRing(ring, pts, epsilon));
      forall x | x in init ensures x in pts {
        var k :| 0 <= k < |init| && init[k] == x;
        assert pts[k] == x;
      }
    }
  }

  // ---------------------------------------------------------------------
  // The points of the other shapes, in visiting order

  /** The points of the first m rings, one ring after the other. */
  function FlatUpTo(rings: seq<Ring>, m: nat): seq<Point>
    requires m <= |rings|
  {
    if m == 0 then [] else FlatUpTo(rings, m - 1) + rings[m - 1]
  }

  /** The points of the first n shapes other than shape i. */
  function OtherPointsUpTo(paths: Paths, i: nat, n: nat): seq<Point>
    requires n <= |paths|
  {
    if n == 0 then []
    else OtherPointsUpTo(paths, i, n - 1) + (if n - 1 == i then [] else FlatUpTo(paths[n - 1], |paths[n - 1]|))
  }

  lemma {:induction false} FlatUpToIn(paths: Paths, s: nat, m: nat, x: Point)
    requires s < |paths| && m <= |paths[s]| && x in FlatUpTo(paths[s], m)
    ensures x in PointSet(paths)
  {
    var init := FlatUpTo(paths[s], m - 1);
    if x in init {
      FlatUpToIn(paths, s, m - 1, x);
    } else {
      assert x in paths[s][m - 1];
      var k :| 0 <= k < |paths[s][m - 1]| && paths[s][m - 1][k] == x;
      RingInPointSet(paths, s, m - 1);
    }
  }

  lemma {:induction false} OtherPointsIn(paths: Paths, i: nat, n: nat)
    requires n <= |paths|
    ensures forall x :: x in OtherPointsUpTo(paths, i, n) ==> x in PointSet(paths)
  {
    if n > 0 {
      OtherPointsIn(paths, i, n - 1);
      forall x | x in OtherPointsUpTo(paths, i, n) ensures x in PointSet(paths) {
        if x !in OtherPointsUpTo(paths, i, n - 1) {
          FlatUpToIn(paths, n - 1, |paths[n - 1]|, x);
        }
      }
    }
  }

  // ---------------------------------------------------------------------
  // addMissingPoints

  /** Same number of shapes, and of rings in each shape. */
  predicate SameRings(a: Paths, b: Paths) {
    |a| == |b| && forall i :: 0 <= i < |a| ==> |a[i]| == |b[i]|
  }

  /** Each ring of a is a subsequence of the same ring of b. */
  ghost predicate RingsGrow(a: Paths, b: Paths) {
    SameRings(a, b) &&
    forall i, j :: 0 <= i < |a| && 0 <= j < |a[i]| ==> Subseq(a[i][j], b[i][j])
  }

  /** The step of addMissingPoints for ring r. */
  function FillStep(paths: Paths, epsilon: real, r: RingId): (p: Paths)
    requires ValidRing(paths, r) && epsilon >= 0.0
    ensures SameRings(p, paths)
  {
    var ring := FillRing(RingAt(paths, r), OtherPointsUpTo(paths, r.shape, |paths|), epsilon);
    paths[r.shape := paths[r.shape][r.ring := ring]]
  }

  lemma SameRingsValid(a: Paths, b: Paths, r: RingId)
    requires SameRings(a, b) && ValidRing(b, r)
    ensures ValidRing(a, r)
  {
    assert |a[r.shape]| == |b[r.shape]|;
  }

  function FillFold(paths: Paths, epsilon: real, ids: seq<RingId>): (p: Paths)
    requires epsilon >= 0.0 && forall x :: x in ids ==> ValidRing(paths, x)
    ensures SameRings(p, paths)
    decreases |ids|
  {
    if |ids| == 0 then paths
    else
      var prev := FillFold(paths, epsilon, ids[..|ids| - 1]);
      SameRingsValid(prev, paths, ids[|ids| - 1]);
      FillStep(prev, epsilon, ids[|ids| - 1])
  }

  /** The paths after addMissingPoints with tolerance epsilon. */
  function FillAll(paths: Paths, epsilon: real): Paths
    requires epsilon >= 0.0
  {
    RingIdsFacts(paths, |paths|);
    FillFold(paths, epsilon, RingIdsUpTo(paths, |paths|))
  }

  /** addMissingPoints after the rings of the first n shapes. */
  function FilledUpTo(paths: Paths, epsilon: real, n: nat): Paths
    requires epsilon >= 0.0 && n <= |paths|
  {
    RingIdsFacts(paths, n);
    FillFold(paths, epsilon, RingIdsUpTo(paths, n))
  }

  /** The loops over all shapes give addMissingPoints, with its facts. */
  lemma FilledAll(paths: Paths, epsilon: real, ps: Paths)
    requires epsilon >= 0.0 && ps == FilledUpTo(paths, epsilon, |paths|)
    ensures ps == FillAll(paths, epsilon)
    ensures RingsGrow(paths, ps) && PointSet(ps) == PointSet(paths)
  {
    FillAllSpec(paths, epsilon);
  }

  lemma FillFoldSnoc(paths: Paths, epsilon: real, ids: seq<RingId>, r: RingId)
    requires epsilon >= 0.0 && ValidRing(paths, r) && forall x :: x in ids ==> ValidRing(paths, x)
    ensures FillFold(paths, epsilon, ids + [r]) == FillStep(FillFold(paths, epsilon, ids), epsilon, r)
  {
    assert (ids + [r])[..|ids|] == ids;
  }

  /** The step of addMissingPoints for ring j of shape i, in terms of the
      rings visited before. */
  lemma FillFoldNext(p0: Paths, epsilon: real, i: nat, j: nat, ps: Paths, r: Ring)
    requires epsilon >= 0.0 && i < |p0| && j < |p0[i]|
    requires ps == FillFold(p0, epsilon, RingsBefore(p0, i, j))
    requires i < |ps| && j < |ps[i]|
    requires r == FillRing(ps[i][j], OtherPointsUpTo(ps, i, |ps|), epsilon)
    ensures ps[i := ps[i][j := r]] == FillFold(p0, epsilon, RingsBefore(p0, i, j + 1))
  {
    RingsBeforeStep(p0, i, j);
    FillFoldSnoc(p0, epsilon, RingsBefore(p0, i, j), RingId(i, j));
  }

  /** One step keeps every point and adds only points of other shapes. */
  lemma FillStepSpec(paths: Paths, epsilon: real, r: RingId)
    requires ValidRing(paths, r) && epsilon >= 0.0
    ensures RingsGrow(paths, FillStep(paths, epsilon, r))
    ensures PointSet(FillStep(paths, epsilon, r)) == PointSet(paths)
  {
    var others := OtherPointsUpTo(paths, r.shape, |paths|);
    var ring := FillRing(RingAt(paths, r), others, epsilon);
    var p := FillStep(paths, epsilon, r);
    assert p == paths[r.shape := paths[r.shape][r.ring := ring]];
    FillRingSpec(RingAt(paths, r), others, epsilon);
    FillStepGrows(paths, r, ring, p);
    OtherPointsIn(paths, r.shape, |paths|);
    FillStepNoNewPoint(paths, r, ring, p);
    FillStepKeepsPoints(paths, r, ring, p);
  }

  /** Replacing ring r by a ring it embeds in makes every ring grow. */
  lemma FillStepGrows(paths: Paths, r: RingId, ring: Ring, p: Paths)
    requires ValidRing(paths, r) && p == paths[r.shape := paths[r.shape][r.ring := ring]]
    requires Subseq(RingAt(paths, r), ring)
    ensures RingsGrow(paths, p)
  {
    forall i, j | 0 <= i < |paths| && 0 <= j < |paths[i]| ensures Subseq(paths[i][j], p[i][j]) {
      if i != r.shape || j != r.ring {
        SubseqRefl(paths[i][j]);
      }
    }
  }

  /** Replacing ring r by a ring of points of the paths adds no point. */
  lemma FillStepNoNewPoint(paths: Paths, r: RingId, ring: Ring, p: Paths)
    requires ValidRing(paths, r) && p == paths[r.shape := paths[r.shape][r.ring := ring]]
    requires forall x :: x in ring ==> x in RingAt(paths, r) || x in PointSet(paths)
    ensures PointSet(p) <= PointSet(paths)
  {
    forall x | x in PointSet(p) ensures x in PointSet(paths) {
      var i, j, k :| 0 <= i < |p| && 0 <= j < |p[i]| && 0 <= k < |p[i][j]| && p[i][j][k] == x;
      if i == r.shape && j == r.ring {
        assert x in ring;
        if x in RingAt(paths, r) {
          RingInPointSet(paths, i, j);
        }
      } else {
        assert paths[i][j][k] == x;
      }
    }
  }

  /** Replacing ring r by a ring it embeds in loses no point. */
  lemma FillStepKeepsPoints(paths: Paths, r: RingId, ring: Ring, p: Paths)
    requires ValidRing(paths, r) && p == paths[r.shape := paths[r.shape][r.ring := ring]]
    requires Subseq(RingAt(paths, r), ring)
    ensures PointSet(paths) <= PointSet(p)
  {
    forall x | x in PointSet(paths) ensures x in PointSet(p) {
      var i, j, k :| 0 <= i < |paths| && 0 <= j < |paths[i]| && 0 <= k < |paths[i][j]| && paths[i][j][k] == x;
      if i == r.shape && j == r.ring {
        var idx :| Embeds(RingAt(paths, r), ring, idx);
        assert p[i][j][idx[k]] == x;
      } else {
        assert p[i][j][k] == x;
      }
    }
  }

  lemma {:induction false} FillFoldSpec(paths: Paths, epsilon: real, ids: seq<RingId>)
    requires epsilon >= 0.0 && forall x :: x in ids ==> ValidRing(paths, x)
    ensures RingsGrow(paths, FillFold(paths, epsilon, ids))
    ensures PointSet(FillFold(paths, epsilon, ids)) == PointSet(paths)
    decreases |ids|
  {
    if |ids| == 0 {
      forall i, j | 0 <= i < |paths| && 0 <= j < |paths[i]| ensures Subseq(paths[i][j], paths[i][j]) {
        SubseqRefl(paths[i][j]);
      }
    } else {
      var prev := FillFold(paths, epsilon, ids[..|ids| - 1]);
      var next := FillFold(paths, epsilon, ids);
      FillFoldSpec(paths, epsilon, ids[..|ids| - 1]);
      SameRingsValid(prev, paths, ids[|ids| - 1]);
      FillStepSpec(prev, epsilon, ids[|ids| - 1]);
      forall i, j | 0 <= i < |paths| && 0 <= j < |paths[i]| ensures Subseq(paths[i][j], next[i][j]) {
        SubseqTrans(paths[i][j], prev[i][j], next[i][j]);
      }
    }
  }

  /** addMissingPoints keeps the number of shapes and of rings, keeps every
      ring's points in their order, and adds only points some shape
      already had: the set of all points does not change. */
  lemma FillAllSpec(paths: Paths, epsilon: real)
    requires epsilon >= 0.0
    ensures RingsGrow(paths, FillAll(paths, epsilon))
    ensures PointSet(FillAll(paths, epsilon)) == PointSet(paths)
  {
    RingIdsFacts(paths, |paths|);
    FillFoldSpec(paths, epsilon, RingIdsUpTo(paths, |paths|));
  }
}
