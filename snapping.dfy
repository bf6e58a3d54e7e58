/** Vertex snapping of SVG3DScene (js/SVGtoSTL.js): getSimilarPointsToFirst
    gathers, from every ring after a reference point's ring, the nearest
    unmarked point; getSimilarPoints does so for every unmarked point in
    order; stickSimilarCurves moves every gathered point to its cluster's
    mean. The "seen" flag the source stores as a third array entry is the
    set `marks` here.

    As written, the reference point's array is also the cluster's running
    sum, so each candidate is compared against the sum of the points
    gathered so far rather than against the reference point. The flag
    `fixedRef` selects that behaviour (false) or comparison against the
    reference point (true). */
module Snapping {
  import opened Geometry
  import opened Cleanup

  datatype Pid = Pid(shape: nat, ring: nat, index: nat)
  datatype RingId = RingId(shape: nat, ring: nat)

  /** A cluster: its middle (running sum, later mean) and its points. */
  datatype Sim = Sim(middle: Point, pts: seq<Pid>)

  /** The best candidate so far of one ring: bestID (-1 for none) and
      bestDist. */
  datatype Best = Best(id: int, dist: real)

  /** The state of one cluster search: the cluster and the marked points. */
  datatype Search = Search(sim: Sim, marks: set<Pid>)

  /** The state of getSimilarPoints: the clusters kept and the marks. */
  datatype Gather = Gather(clusters: seq<Sim>, marks: set<Pid>)

  predicate ValidRing(paths: Paths, r: RingId) {
    r.shape < |paths| && r.ring < |paths[r.shape]|
  }

  predicate ValidPid(paths: Paths, p: Pid) {
    p.shape < |paths| && p.ring < |paths[p.shape]| && p.index < |paths[p.shape][p.ring]|
  }

  function RingAt(paths: Paths, r: RingId): Ring
    requires ValidRing(paths, r)
  {
    paths[r.shape][r.ring]
  }

  function At(paths: Paths, p: Pid): Point
    requires ValidPid(paths, p)
  {
    paths[p.shape][p.ring][p.index]
  }

  function RingOf(p: Pid): RingId {
    RingId(p.shape, p.ring)
  }

  /** Lexicographic order of rings, the order the loops visit them. */
  predicate RingLt(a: RingId, b: RingId) {
    a.shape < b.shape || (a.shape == b.shape && a.ring < b.ring)
  }

  /** Lexicographic order of points. */
  predicate PidLt(a: Pid, b: Pid) {
    RingLt(RingOf(a), RingOf(b)) || (RingOf(a) == RingOf(b) && a.index < b.index)
  }

  predicate RingsIncreasing(s: seq<RingId>) {
    forall a, b :: 0 <= a < b < |s| ==> RingLt(s[a], s[b])
  }

  predicate PidsIncreasing(s: seq<Pid>) {
    forall a, b :: 0 <= a < b < |s| ==> PidLt(s[a], s[b])
  }

  // ---------------------------------------------------------------------
  // Visiting order

  function ShapeRingIds(paths: Paths, i: nat, m: nat): (s: seq<RingId>)
    requires i < |paths| && m <= |paths[i]|
    ensures |s| == m && forall j :: 0 <= j < m ==> s[j] == RingId(i, j)
  {
    seq(m, j requires 0 <= j < m => RingId(i, j))
  }

  /** The rings of the first n shapes, in visiting order. */
  function RingIdsUpTo(paths: Paths, n: nat): seq<RingId>
    requires n <= |paths|
  {
    if n == 0 then [] else RingIdsUpTo(paths, n - 1) + ShapeRingIds(paths, n - 1, |paths[n - 1]|)
  }

  function RingPids(paths: Paths, r: RingId, m: nat): (s: seq<Pid>)
    requires ValidRing(paths, r) && m <= |RingAt(paths, r)|
    ensures |s| == m && forall k :: 0 <= k < m ==> s[k] == Pid(r.shape, r.ring, k)
  {
    seq(m, k requires 0 <= k < m => Pid(r.shape, r.ring, k))
  }

  /** The points of the first m rings of shape i, in visiting order. */
  function ShapePidsUpTo(paths: Paths, i: nat, m: nat): seq<Pid>
    requires i < |paths| && m <= |paths[i]|
  {
    if m == 0 then []
    else ShapePidsUpTo(paths, i, m - 1) + RingPids(paths, RingId(i, m - 1), |paths[i][m - 1]|)
  }

  /** The points of the first n shapes, in visiting order. */
  function PidsUpTo(paths: Paths, n: nat): seq<Pid>
    requires n <= |paths|
  {
    if n == 0 then [] else PidsUpTo(paths, n - 1) + ShapePidsUpTo(paths, n - 1, |paths[n - 1]|)
  }

  lemma {:induction false} RingIdsFacts(paths: Paths, n: nat)
    requires n <= |paths|
    ensures RingsIncreasing(RingIdsUpTo(paths, n))
    ensures forall r :: r in RingIdsUpTo(paths, n) ==> ValidRing(paths, r) && r.shape < n
  {
    if n > 0 {
      RingIdsFacts(paths, n - 1);
      var a := RingIdsUpTo(paths, n - 1);
      var b := ShapeRingIds(paths, n - 1, |paths[n - 1]|);
      forall x, y | 0 <= x < y < |a + b| ensures RingLt((a + b)[x], (a + b)[y]) {
        if y < |a| {
          assert (a + b)[x] == a[x] && (a + b)[y] == a[y];
        } else if x < |a| {
          assert (a + b)[x] == a[x] && a[x] in a;
        }
      }
    }
  }

  lemma {:induction false} ShapePidsFacts(paths: Paths, i: nat, m: nat)
    requires i < |paths| && m <= |paths[i]|
    ensures PidsIncreasing(ShapePidsUpTo(paths, i, m))
    ensures forall p :: p in ShapePidsUpTo(paths, i, m) ==> ValidPid(paths, p) && p.shape == i && p.ring < m
  {
    if m > 0 {
      ShapePidsFacts(paths, i, m - 1);
      var a := ShapePidsUpTo(paths, i, m - 1);
      var b := RingPids(paths, RingId(i, m - 1), |paths[i][m - 1]|);
      forall x, y | 0 <= x < y < |a + b| ensures PidLt((a + b)[x], (a + b)[y]) {
        if y < |a| {
          assert (a + b)[x] == a[x] && (a + b)[y] == a[y];
        } else if x < |a| {
          assert (a + b)[x] == a[x] && a[x] in a;
        }
      }
    }
  }

  lemma {:induction false} PidsFacts(paths: Paths, n: nat)
    requires n <= |paths|
    ensures PidsIncreasing(PidsUpTo(paths, n))
    ensures forall p :: p in PidsUpTo(paths, n) ==> ValidPid(paths, p) && p.shape < n
  {
    if n > 0 {
      PidsFacts(paths, n - 1);
      ShapePidsFacts(paths, n - 1, |paths[n - 1]|);
      var a := PidsUpTo(paths, n - 1);
      var b := ShapePidsUpTo(paths, n - 1, |paths[n - 1]|);
      forall x, y | 0 <= x < y < |a + b| ensures PidLt((a + b)[x], (a + b)[y]) {
        if y < |a| {
          assert (a + b)[x] == a[x] && (a + b)[y] == a[y];
        } else if x < |a| {
          assert (a + b)[x] == a[x] && a[x] in a;
          assert (a + b)[y] == b[y - |a|] && b[y - |a|] in b;
        } else {
          assert (a + b)[x] == b[x - |a|] && (a + b)[y] == b[y - |a|];
        }
      }
    }
  }

  /** The rings visited before ring j of shape i. */
  function RingsBefore(paths: Paths, i: nat, j: nat): (s: seq<RingId>)
    requires i < |paths| && j <= |paths[i]|
    ensures forall r :: r in s ==> ValidRing(paths, r) && RingLt(r, RingId(i, j))
  {
    RingIdsFacts(paths, i);
    RingIdsUpTo(paths, i) + ShapeRingIds(paths, i, j)
  }

  lemma RingsBeforeStep(paths: Paths, i: nat, j: nat)
    requires i < |paths| && j < |paths[i]|
    ensures RingsBefore(paths, i, j + 1) == RingsBefore(paths, i, j) + [RingId(i, j)]
  {
    assert ShapeRingIds(paths, i, j + 1) == ShapeRingIds(paths, i, j) + [RingId(i, j)];
  }

  lemma RingsBeforeEnds(paths: Paths, i: nat)
    requires i < |paths|
    ensures RingsBefore(paths, i, 0) == RingIdsUpTo(paths, i)
    ensures RingsBefore(paths, i, |paths[i]|) == RingIdsUpTo(paths, i + 1)
  {
    assert ShapeRingIds(paths, i, 0) == [];
  }

  /** The points visited before point k of ring j of shape i. */
  function PidsBefore(paths: Paths, i: nat, j: nat, k: nat): (s: seq<Pid>)
    requires i < |paths| && j < |paths[i]| && k <= |paths[i][j]|
    ensures forall p :: p in s ==> ValidPid(paths, p)
  {
    PidsFacts(paths, i);
    ShapePidsFacts(paths, i, j);
    PidsUpTo(paths, i) + ShapePidsUpTo(paths, i, j) + RingPids(paths, RingId(i, j), k)
  }

  /** The points of the first i shapes and of the first j rings of shape i. */
  function PidsThrough(paths: Paths, i: nat, j: nat): (s: seq<Pid>)
    requires i < |paths| && j <= |paths[i]|
    ensures forall p :: p in s ==> ValidPid(paths, p)
  {
    PidsFacts(paths, i);
    ShapePidsFacts(paths, i, j);
    PidsUpTo(paths, i) + ShapePidsUpTo(paths, i, j)
  }

  lemma PidsBeforeStep(paths: Paths, i: nat, j: nat, k: nat)
    requires i < |paths| && j < |paths[i]| && k < |paths[i][j]|
    ensures PidsBefore(paths, i, j, k + 1) == PidsBefore(paths, i, j, k) + [Pid(i, j, k)]
  {
    assert RingPids(paths, RingId(i, j), k + 1) == RingPids(paths, RingId(i, j), k) + [Pid(i, j, k)];
  }

  lemma PidsBeforeEnds(paths: Paths, i: nat, j: nat)
    requires i < |paths| && j < |paths[i]|
    ensures PidsBefore(paths, i, j, 0) == PidsUpTo(paths, i) + ShapePidsUpTo(paths, i, j)
    ensures PidsBefore(paths, i, j, |paths[i][j]|) == PidsUpTo(paths, i) + ShapePidsUpTo(paths, i, j + 1)
  {
    var a := PidsUpTo(paths, i);
    var b := ShapePidsUpTo(paths, i, j);
    var c := RingPids(paths, RingId(i, j), |paths[i][j]|);
    assert RingPids(paths, RingId(i, j), 0) == [];
    assert PidsBefore(paths, i, j, 0) == (a + b) + [] == a + b;
    assert ShapePidsUpTo(paths, i, j + 1) == b + c;
    assert PidsBefore(paths, i, j, |paths[i][j]|) == (a + b) + c == a + (b + c);
  }

  // ---------------------------------------------------------------------
  // The nearest candidate of one ring

  /** The innermost loop of getSimilarPointsToFirst over the first n points
      of ring r: the first unmarked point strictly nearest to target among
      those closer than distance. */
  function PickUpTo(paths: Paths, r: RingId, target: Point, distance: real, marks: set<Pid>, n: nat): (b: Best)
    requires ValidRing(paths, r) && n <= |RingAt(paths, r)|
    ensures b.id == -1 || 0 <= b.id < n
  {
    if n == 0 then Best(-1, -1.0)
    else
      var b := PickUpTo(paths, r, target, distance, marks, n - 1);
      if Pid(r.shape, r.ring, n - 1) in marks then b
      else
        var d := DistanceSqrd(RingAt(paths, r)[n - 1], target);
        if d < distance && (b.id < 0 || b.dist > d) then Best(n - 1, d) else b
  }

  /** The pick is unmarked and closer than distance; every other unmarked
      point of the ring is at least as far, and every one before it strictly
      farther, or not closer than distance; no pick means no unmarked point
      is closer than distance. */
  lemma {:induction false} PickSpec(paths: Paths, r: RingId, target: Point, distance: real, marks: set<Pid>, n: nat)
    requires ValidRing(paths, r) && n <= |RingAt(paths, r)|
    ensures var b := PickUpTo(paths, r, target, distance, marks, n);
      (b.id >= 0 ==>
         Pid(r.shape, r.ring, b.id) !in marks &&
         b.dist == DistanceSqrd(RingAt(paths, r)[b.id], target) && b.dist < distance &&
         (forall k :: 0 <= k < n && Pid(r.shape, r.ring, k) !in marks ==>
            DistanceSqrd(RingAt(paths, r)[k], target) >= b.dist) &&
         (forall k :: 0 <= k < b.id && Pid(r.shape, r.ring, k) !in marks ==>
            DistanceSqrd(RingAt(paths, r)[k], target) >= distance ||
            DistanceSqrd(RingAt(paths, r)[k], target) > b.dist)) &&
      (b.id < 0 ==>
         forall k :: 0 <= k < n && Pid(r.shape, r.ring, k) !in marks ==>
           DistanceSqrd(RingAt(paths, r)[k], target) >= distance)
  {
    if n > 0 {
      PickSpec(paths, r, target, distance, marks, n - 1);
    }
  }

  // ---------------------------------------------------------------------
  // One cluster: getSimilarPointsToFirst

  /** The step of getSimilarPointsToFirst for ring r; rings up to the
      reference point's own are not visited. */
  function RingStep(paths: Paths, ref: Pid, distance: real, fixedRef: bool, st: Search, r: RingId): Search
    requires ValidPid(paths, ref) && ValidRing(paths, r)
  {
    if !RingLt(RingOf(ref), r) then st
    else
      var target := if fixedRef then At(paths, ref) else st.sim.middle;
      var b := PickUpTo(paths, r, target, distance, st.marks, |RingAt(paths, r)|);
      if b.id < 0 then st
      else
        var p := Pid(r.shape, r.ring, b.id);
        var pt := At(paths, p);
        Search(Sim(Point(st.sim.middle.x + pt.x, st.sim.middle.y + pt.y), st.sim.pts + [p]), st.marks + {p})
  }

  function SearchFold(paths: Paths, ref: Pid, distance: real, fixedRef: bool, st: Search, ids: seq<RingId>): Search
    requires ValidPid(paths, ref) && forall r :: r in ids ==> ValidRing(paths, r)
    decreases |ids|
  {
    if |ids| == 0 then st
    else RingStep(paths, ref, distance, fixedRef, SearchFold(paths, ref, distance, fixedRef, st, ids[..|ids| - 1]), ids[|ids| - 1])
  }

  function StartSearch(paths: Paths, ref: Pid, marks: set<Pid>): Search
    requires ValidPid(paths, ref)
  {
    Search(Sim(At(paths, ref), [ref]), marks)
  }

  /** The search from ref over the rings of the first n shapes. */
  function SearchUpTo(paths: Paths, ref: Pid, distance: real, fixedRef: bool, marks: set<Pid>, n: nat): Search
    requires ValidPid(paths, ref) && n <= |paths|
  {
    RingIdsFacts(paths, n);
    SearchFold(paths, ref, distance, fixedRef, StartSearch(paths, ref, marks), RingIdsUpTo(paths, n))
  }

  /** The cluster getSimilarPointsToFirst returns for the point ref, and
      the marks afterwards. */
  function ToFirst(paths: Paths, ref: Pid, distance: real, fixedRef: bool, marks: set<Pid>): Search
    requires ValidPid(paths, ref)
  {
    RingIdsFacts(paths, |paths|);
    SearchFold(paths, ref, distance, fixedRef, StartSearch(paths, ref, marks), RingIdsUpTo(paths, |paths|))
  }

  lemma SearchFoldSnoc(paths: Paths, ref: Pid, distance: real, fixedRef: bool, st: Search, ids: seq<RingId>, r: RingId)
    requires ValidPid(paths, ref) && ValidRing(paths, r) && forall x :: x in ids ==> ValidRing(paths, x)
    ensures SearchFold(paths, ref, distance, fixedRef, st, ids + [r]) ==
            RingStep(paths, ref, distance, fixedRef, SearchFold(paths, ref, distance, fixedRef, st, ids), r)
  {
    assert (ids + [r])[..|ids|] == ids;
  }

  /** Rings not after the reference point's ring leave a search unchanged. */
  lemma {:induction false} SearchFoldSkips(paths: Paths, ref: Pid, distance: real, fixedRef: bool, st: Search, ids: seq<RingId>)
    requires ValidPid(paths, ref) && forall x :: x in ids ==> ValidRing(paths, x) && !RingLt(RingOf(ref), x)
    ensures SearchFold(paths, ref, distance, fixedRef, st, ids) == st
    decreases |ids|
  {
    if |ids| > 0 {
      SearchFoldSkips(paths, ref, distance, fixedRef, st, ids[..|ids| - 1]);
    }
  }

  /** The search from ref over the rings before ring j of shape i. */
  function ShapeSearch(paths: Paths, ref: Pid, distance: real, fixedRef: bool, marks: set<Pid>, i: nat, j: nat): Search
    requires ValidPid(paths, ref) && i < |paths| && j <= |paths[i]|
  {
    SearchFold(paths, ref, distance, fixedRef, StartSearch(paths, ref, marks), RingsBefore(paths, i, j))
  }

  /** Where the search stands when the loops reach the first ring they
      visit in shape i: nothing before the reference point's ring counts. */
  lemma SearchShapeStart(paths: Paths, ref: Pid, distance: real, fixedRef: bool, marks: set<Pid>, s0: Search, i: nat)
    requires ValidPid(paths, ref) && ref.shape <= i < |paths|
    requires s0 == SearchUpTo(paths, ref, distance, fixedRef, marks, i)
    ensures s0 == ShapeSearch(paths, ref, distance, fixedRef, marks, i, if i == ref.shape then ref.ring else 0)
  {
    var start := StartSearch(paths, ref, marks);
    RingsBeforeEnds(paths, i);
    RingIdsFacts(paths, i);
    if i == ref.shape {
      SearchFoldSkips(paths, ref, distance, fixedRef, start, RingIdsUpTo(paths, i));
      SearchFoldSkips(paths, ref, distance, fixedRef, start, RingsBefore(paths, i, ref.ring));
    }
  }

  /** Where the search stands when the loops leave shape i. */
  lemma SearchShapeEnd(paths: Paths, ref: Pid, distance: real, fixedRef: bool, marks: set<Pid>, s: Search, i: nat)
    requires ValidPid(paths, ref) && i < |paths|
    requires s == ShapeSearch(paths, ref, distance, fixedRef, marks, i, |paths[i]|)
    ensures s == SearchUpTo(paths, ref, distance, fixedRef, marks, i + 1)
  {
    RingsBeforeEnds(paths, i);
  }

  /** One ring of the loops of getSimilarPointsToFirst, past the reference
      point's ring. */
  lemma SearchRingNext(paths: Paths, ref: Pid, distance: real, fixedRef: bool, marks: set<Pid>, s: Search, i: nat, j: nat)
    requires ValidPid(paths, ref) && ref.shape <= i < |paths| && j < |paths[i]| && (i == ref.shape ==> ref.ring <= j)
    requires s == ShapeSearch(paths, ref, distance, fixedRef, marks, i, j)
    ensures ShapeSearch(paths, ref, distance, fixedRef, marks, i, j + 1) == RingStep(paths, ref, distance, fixedRef, s, RingId(i, j))
    ensures RingStep(paths, ref, distance, fixedRef, s, RingId(i, j)) == s <== (i == ref.shape && j == ref.ring)
    ensures (i != ref.shape || j != ref.ring) ==> RingLt(RingOf(ref), RingId(i, j))
  {
    RingsBeforeStep(paths, i, j);
    SearchFoldSnoc(paths, ref, distance, fixedRef, StartSearch(paths, ref, marks), RingsBefore(paths, i, j), RingId(i, j));
  }

  /** The sum of the points pts. */
  function SumPts(paths: Paths, pts: seq<Pid>): Point
    requires forall p :: p in pts ==> ValidPid(paths, p)
    decreases |pts|
  {
    if |pts| == 0 then Point(0.0, 0.0)
    else
      var s := SumPts(paths, pts[..|pts| - 1]);
      var q := At(paths, pts[|pts| - 1]);
      Point(s.x + q.x, s.y + q.y)
  }

  /** What one cluster search keeps true: the reference point first, the
      middle the sum of the points, every later point unmarked before the
      search, in a distinct ring visited after the reference point's
      ring, and marked now. */
  ghost predicate SearchInv(paths: Paths, ref: Pid, marks0: set<Pid>, ids: seq<RingId>, s: Search) {
    var pts := s.sim.pts;
    |pts| >= 1 && pts[0] == ref &&
    (forall p :: p in pts ==> ValidPid(paths, p)) &&
    s.sim.middle == SumPts(paths, pts) &&
    (forall a :: 1 <= a < |pts| ==>
       pts[a] !in marks0 && RingLt(RingOf(ref), RingOf(pts[a])) && RingOf(pts[a]) in ids) &&
    (forall a, b :: 1 <= a < b < |pts| ==> RingLt(RingOf(pts[a]), RingOf(pts[b]))) &&
    (forall q :: q in s.marks <==> q in marks0 || q in pts[1..])
  }

  lemma RingLtTrans(a: RingId, b: RingId, c: RingId)
    requires RingLt(a, b) && RingLt(b, c)
    ensures RingLt(a, c)
  {
  }

  lemma SearchStepInv(paths: Paths, ref: Pid, distance: real, fixedRef: bool, marks0: set<Pid>,
                      ids: seq<RingId>, s: Search, r: RingId)
    requires ValidPid(paths, ref) && ValidRing(paths, r)
    requires forall x :: x in ids ==> RingLt(x, r)
    requires SearchInv(paths, ref, marks0, ids, s)
    ensures SearchInv(paths, ref, marks0, ids + [r], RingStep(paths, ref, distance, fixedRef, s, r))
  {
    var target := if fixedRef then At(paths, ref) else s.sim.middle;
    var b := PickUpTo(paths, r, target, distance, s.marks, |RingAt(paths, r)|);
    if RingLt(RingOf(ref), r) && b.id >= 0 {
      var p := Pid(r.shape, r.ring, b.id);
      PickUnmarked(paths, r, target, distance, s.marks);
      assert RingStep(paths, ref, distance, fixedRef, s, r) ==
             Search(Sim(Point(s.sim.middle.x + At(paths, p).x, s.sim.middle.y + At(paths, p).y), s.sim.pts + [p]), s.marks + {p});
      SearchAddInv(paths, ref, marks0, ids, s, r, p);
    } else {
      assert RingStep(paths, ref, distance, fixedRef, s, r) == s;
      SearchKeepInv(paths, ref, marks0, ids, s, r);
    }
  }

  /** The candidate of a ring, when there is one, is not marked. */
  lemma PickUnmarked(paths: Paths, r: RingId, target: Point, distance: real, marks: set<Pid>)
    requires ValidRing(paths, r)
    ensures var b := PickUpTo(paths, r, target, distance, marks, |RingAt(paths, r)|);
      b.id >= 0 ==> Pid(r.shape, r.ring, b.id) !in marks
  {
    PickSpec(paths, r, target, distance, marks, |RingAt(paths, r)|);
  }

  /** A ring that adds nothing keeps the invariant. */
  lemma SearchKeepInv(paths: Paths, ref: Pid, marks0: set<Pid>, ids: seq<RingId>, s: Search, r: RingId)
    requires SearchInv(paths, ref, marks0, ids, s)
    ensures SearchInv(paths, ref, marks0, ids + [r], s)
  {
    var pts := s.sim.pts;
    forall a | 1 <= a < |pts| ensures RingOf(pts[a]) in ids + [r] {
      assert RingOf(pts[a]) in ids;
    }
  }

  /** An unmarked point p of a ring r after the reference point's ring and
      after every ring visited keeps the invariant when it joins. */
  lemma SearchAddInv(paths: Paths, ref: Pid, marks0: set<Pid>, ids: seq<RingId>, s: Search, r: RingId, p: Pid)
    requires ValidPid(paths, p) && RingOf(p) == r && RingLt(RingOf(ref), r)
    requires forall x :: x in ids ==> RingLt(x, r)
    requires p !in s.marks && SearchInv(paths, ref, marks0, ids, s)
    ensures SearchInv(paths, ref, marks0, ids + [r],
                      Search(Sim(Point(s.sim.middle.x + At(paths, p).x, s.sim.middle.y + At(paths, p).y), s.sim.pts + [p]),
                             s.marks + {p}))
  {
    var pts := s.sim.pts;
    var pts' := pts + [p];
    assert pts'[..|pts'| - 1] == pts;
    assert pts'[1..] == pts[1..] + [p];
    forall a | 1 <= a < |pts'|
      ensures pts'[a] !in marks0 && RingLt(RingOf(ref), RingOf(pts'[a])) && RingOf(pts'[a]) in ids + [r]
    {
      if a < |pts| {
        assert pts'[a] == pts[a];
      }
    }
    forall a, c | 1 <= a < c < |pts'| ensures RingLt(RingOf(pts'[a]), RingOf(pts'[c])) {
      if c == |pts| {
        assert RingOf(pts[a]) in ids;
      } else {
        assert pts'[a] == pts[a] && pts'[c] == pts[c];
      }
    }
  }

  /** The invariant before any ring is visited. */
  lemma SearchStartInv(paths: Paths, ref: Pid, marks0: set<Pid>)
    requires ValidPid(paths, ref)
    ensures SearchInv(paths, ref, marks0, [], StartSearch(paths, ref, marks0))
  {
    assert [ref][..0] == [];
  }

  /** Every ring of an increasing list but the last comes before the last. */
  lemma IncreasingLast(init: seq<RingId>, r: RingId)
    requires RingsIncreasing(init + [r])
    ensures forall x :: x in init ==> RingLt(x, r)
  {
    forall x | x in init ensures RingLt(x, r) {
      var a :| 0 <= a < |init| && init[a] == x;
      assert (init + [r])[a] == x && (init + [r])[|init|] == r;
    }
  }

  lemma {:induction false} SearchFoldInv(paths: Paths, ref: Pid, distance: real, fixedRef: bool,
                                         marks0: set<Pid>, ids: seq<RingId>)
    requires ValidPid(paths, ref) && (forall r :: r in ids ==> ValidRing(paths, r)) && RingsIncreasing(ids)
    ensures SearchInv(paths, ref, marks0, ids,
                      SearchFold(paths, ref, distance, fixedRef, StartSearch(paths, ref, marks0), ids))
    decreases |ids|
  {
    if |ids| == 0 {
      SearchStartInv(paths, ref, marks0);
    } else {
      var init := ids[..|ids| - 1];
      var r := ids[|ids| - 1];
      SearchFoldInv(paths, ref, distance, fixedRef, marks0, init);
      assert init + [r] == ids;
      IncreasingLast(init, r);
      SearchStepInv(paths, ref, distance, fixedRef, marks0, init,
                    SearchFold(paths, ref, distance, fixedRef, StartSearch(paths, ref, marks0), init), r);
      assert init + [r] == ids;
    }
  }

  /** getSimilarPointsToFirst returns the reference point first and then
      at most one point per later ring, in visiting order, each unmarked
      before the call and marked after it; the middle is the sum of the
      points. */
  lemma ToFirstSpec(paths: Paths, ref: Pid, distance: real, fixedRef: bool, marks: set<Pid>)
    requires ValidPid(paths, ref)
    ensures SearchInv(paths, ref, marks, RingIdsUpTo(paths, |paths|), ToFirst(paths, ref, distance, fixedRef, marks))
  {
    RingIdsFacts(paths, |paths|);
    SearchFoldInv(paths, ref, distance, fixedRef, marks, RingIdsUpTo(paths, |paths|));
  }

  // ---------------------------------------------------------------------
  // All clusters: getSimilarPoints

  /** The mean of the points pts. */
  function MeanOf(paths: Paths, pts: seq<Pid>): Point
    requires |pts| > 0 && forall p :: p in pts ==> ValidPid(paths, p)
  {
    var s := SumPts(paths, pts);
    Point(s.x / (|pts| as real), s.y / (|pts| as real))
  }

  /** The step of getSimilarPoints for the point p: an unmarked point
      starts a search, kept as a cluster when it gathered another point. */
  function PointStep(paths: Paths, distance: real, fixedRef: bool, g: Gather, p: Pid): Gather
    requires ValidPid(paths, p)
  {
    if p in g.marks then g
    else
      var s := ToFirst(paths, p, distance, fixedRef, g.marks);
      if |s.sim.pts| > 1 then
        Gather(g.clusters + [Sim(Point(s.sim.middle.x / (|s.sim.pts| as real),
                                       s.sim.middle.y / (|s.sim.pts| as real)), s.sim.pts)], s.marks)
      else Gather(g.clusters, s.marks)
  }

  function GatherFold(paths: Paths, distance: real, fixedRef: bool, g: Gather, ps: seq<Pid>): Gather
    requires forall p :: p in ps ==> ValidPid(paths, p)
    decreases |ps|
  {
    if |ps| == 0 then g
    else PointStep(paths, distance, fixedRef, GatherFold(paths, distance, fixedRef, g, ps[..|ps| - 1]), ps[|ps| - 1])
  }

  lemma GatherFoldSnoc(paths: Paths, distance: real, fixedRef: bool, g: Gather, ps: seq<Pid>, p: Pid)
    requires ValidPid(paths, p) && forall q :: q in ps ==> ValidPid(paths, q)
    ensures GatherFold(paths, distance, fixedRef, g, ps + [p]) ==
            PointStep(paths, distance, fixedRef, GatherFold(paths, distance, fixedRef, g, ps), p)
  {
    assert (ps + [p])[..|ps|] == ps;
  }

  /** The clusters getSimilarPoints returns, with the final marks. */
  function SimilarPoints(paths: Paths, distance: real, fixedRef: bool): Gather {
    PidsFacts(paths, |paths|);
    GatherFold(paths, distance, fixedRef, Gather([], {}), PidsUpTo(paths, |paths|))
  }

  /** Each point lies in at most one cluster, and at most once in it. */
  ghost predicate Disjoint(clusters: seq<Sim>) {
    (forall c1, c2, a, b :: 0 <= c1 < c2 < |clusters| && 0 <= a < |clusters[c1].pts| && 0 <= b < |clusters[c2].pts| ==>
       clusters[c1].pts[a] != clusters[c2].pts[b]) &&
    (forall c, a, b :: 0 <= c < |clusters| && 0 <= a < b < |clusters[c].pts| ==>
       clusters[c].pts[a] != clusters[c].pts[b])
  }

  /** A kept cluster: at least two valid points, in rings visited in
      strictly increasing order, with their mean as middle. */
  ghost predicate GoodCluster(paths: Paths, c: Sim) {
    |c.pts| > 1 &&
    (forall p :: p in c.pts ==> ValidPid(paths, p)) &&
    (forall a, b :: 0 <= a < b < |c.pts| ==> RingLt(RingOf(c.pts[a]), RingOf(c.pts[b]))) &&
    c.middle == MeanOf(paths, c.pts)
  }

  ghost predicate GatherInv(paths: Paths, ps: seq<Pid>, g: Gather) {
    (forall c :: 0 <= c < |g.clusters| ==> GoodCluster(paths, g.clusters[c]) && g.clusters[c].pts[0] in ps) &&
    (forall c, a :: 0 <= c < |g.clusters| && 1 <= a < |g.clusters[c].pts| ==> g.clusters[c].pts[a] in g.marks) &&
    Disjoint(g.clusters)
  }

  lemma PidLtIrreflexiveTrans(a: Pid, b: Pid, c: Pid)
    requires PidLt(a, b)
    ensures a != b
    ensures PidLt(b, c) ==> PidLt(a, c)
  {
  }

  lemma GatherStepInv(paths: Paths, distance: real, fixedRef: bool, ps: seq<Pid>, g: Gather, p: Pid)
    requires ValidPid(paths, p)
    requires forall q :: q in ps ==> PidLt(q, p)
    requires GatherInv(paths, ps, g)
    ensures GatherInv(paths, ps + [p], PointStep(paths, distance, fixedRef, g, p))
  {
    if p !in g.marks {
      var s := ToFirst(paths, p, distance, fixedRef, g.marks);
      ToFirstSpec(paths, p, distance, fixedRef, g.marks);
      if |s.sim.pts| > 1 {
        GatherAddCluster(paths, ps, g, p, RingIdsUpTo(paths, |paths|), s);
      } else {
        GatherKeepClusters(paths, ps, g, p, RingIdsUpTo(paths, |paths|), s);
      }
    }
  }

  /** A search from p that gathered nothing else only adds to the marks. */
  lemma GatherKeepClusters(paths: Paths, ps: seq<Pid>, g: Gather, p: Pid, ids: seq<RingId>, s: Search)
    requires GatherInv(paths, ps, g)
    requires SearchInv(paths, p, g.marks, ids, s)
    ensures GatherInv(paths, ps + [p], Gather(g.clusters, s.marks))
  {
    forall c1, a | 0 <= c1 < |g.clusters| && 1 <= a < |g.clusters[c1].pts|
      ensures g.clusters[c1].pts[a] in s.marks
    {
    }
    forall c1 | 0 <= c1 < |g.clusters| ensures g.clusters[c1].pts[0] in ps + [p] {
    }
  }

  /** A search from the unmarked point p, later than every point of ps,
      that gathered another point adds a good cluster disjoint from the
      earlier ones. */
  lemma GatherAddCluster(paths: Paths, ps: seq<Pid>, g: Gather, p: Pid, ids: seq<RingId>, s: Search)
    requires forall q :: q in ps ==> PidLt(q, p)
    requires GatherInv(paths, ps, g) && p !in g.marks
    requires SearchInv(paths, p, g.marks, ids, s) && |s.sim.pts| > 1
    ensures GatherInv(paths, ps + [p], Gather(g.clusters + [Sim(Point(s.sim.middle.x / (|s.sim.pts| as real),
                                                                  s.sim.middle.y / (|s.sim.pts| as real)), s.sim.pts)], s.marks))
  {
    var pts := s.sim.pts;
    var c := Sim(Point(s.sim.middle.x / (|pts| as real), s.sim.middle.y / (|pts| as real)), pts);
    var cs := g.clusters + [c];
    NewClusterGood(paths, p, g.marks, ids, s);
    NewClusterApart(paths, ps, g, p, ids, s);
    forall c1, a | 0 <= c1 < |cs| && 1 <= a < |cs[c1].pts| ensures cs[c1].pts[a] in s.marks {
      if c1 < |g.clusters| {
        assert cs[c1] == g.clusters[c1];
      } else {
        assert pts[a] in pts[1..];
      }
    }
    forall c1 | 0 <= c1 < |cs| ensures GoodCluster(paths, cs[c1]) && cs[c1].pts[0] in ps + [p] {
      if c1 < |g.clusters| {
        assert cs[c1] == g.clusters[c1];
      }
    }
    DisjointSnoc(g.clusters, c);
  }

  /** A cluster of distinct points, apart from every earlier cluster,
      keeps the clusters disjoint. */
  lemma DisjointSnoc(clusters: seq<Sim>, c: Sim)
    requires Disjoint(clusters)
    requires forall a, b :: 0 <= a < b < |c.pts| ==> c.pts[a] != c.pts[b]
    requires forall c1, a, b :: 0 <= c1 < |clusters| && 0 <= a < |clusters[c1].pts| && 0 <= b < |c.pts| ==>
               clusters[c1].pts[a] != c.pts[b]
    ensures Disjoint(clusters + [c])
  {
    var cs := clusters + [c];
    forall c1, c2, a, b | 0 <= c1 < c2 < |cs| && 0 <= a < |cs[c1].pts| && 0 <= b < |cs[c2].pts|
      ensures cs[c1].pts[a] != cs[c2].pts[b]
    {
      assert cs[c1] == clusters[c1];
      if c2 < |clusters| {
        assert cs[c2] == clusters[c2];
      }
    }
    forall c1, a, b | 0 <= c1 < |cs| && 0 <= a < b < |cs[c1].pts| ensures cs[c1].pts[a] != cs[c1].pts[b] {
      if c1 < |clusters| {
        assert cs[c1] == clusters[c1];
      }
    }
  }

  /** The cluster a search keeps is good, and its points are distinct. */
  lemma NewClusterGood(paths: Paths, p: Pid, marks: set<Pid>, ids: seq<RingId>, s: Search)
    requires SearchInv(paths, p, marks, ids, s) && |s.sim.pts| > 1
    ensures GoodCluster(paths, Sim(Point(s.sim.middle.x / (|s.sim.pts| as real),
                                         s.sim.middle.y / (|s.sim.pts| as real)), s.sim.pts))
    ensures forall a, b :: 0 <= a < b < |s.sim.pts| ==> s.sim.pts[a] != s.sim.pts[b]
  {
    var pts := s.sim.pts;
    forall a, b | 0 <= a < b < |pts| ensures RingLt(RingOf(pts[a]), RingOf(pts[b])) {
    }
    forall a, b | 0 <= a < b < |pts| ensures pts[a] != pts[b] {
      assert RingLt(RingOf(pts[a]), RingOf(pts[b]));
    }
  }

  /** The points a search from p gathers differ from the points of every
      earlier cluster: their first points come before p, the others are
      marked. */
  lemma NewClusterApart(paths: Paths, ps: seq<Pid>, g: Gather, p: Pid, ids: seq<RingId>, s: Search)
    requires forall q :: q in ps ==> PidLt(q, p)
    requires GatherInv(paths, ps, g) && p !in g.marks
    requires SearchInv(paths, p, g.marks, ids, s)
    ensures forall c1, a, b :: 0 <= c1 < |g.clusters| && 0 <= a < |g.clusters[c1].pts| && 0 <= b < |s.sim.pts| ==>
              g.clusters[c1].pts[a] != s.sim.pts[b]
  {
    var pts := s.sim.pts;
    forall c1, a, b | 0 <= c1 < |g.clusters| && 0 <= a < |g.clusters[c1].pts| && 0 <= b < |pts|
      ensures g.clusters[c1].pts[a] != pts[b]
    {
      var q := g.clusters[c1].pts[a];
      if a == 0 {
        assert PidLt(q, p);
        if b > 0 {
          assert RingLt(RingOf(p), RingOf(pts[b]));
          PidLtIrreflexiveTrans(q, p, pts[b]);
        } else {
          PidLtIrreflexiveTrans(q, p, p);
        }
      } else {
        assert q in g.marks;
        if b > 0 {
          assert pts[b] !in g.marks;
        }
      }
    }
  }

  lemma {:induction false} GatherFoldInv(paths: Paths, distance: real, fixedRef: bool, ps: seq<Pid>)
    requires (forall p :: p in ps ==> ValidPid(paths, p)) && PidsIncreasing(ps)
    ensures GatherInv(paths, ps, GatherFold(paths, distance, fixedRef, Gather([], {}), ps))
    decreases |ps|
  {
    if |ps| > 0 {
      var init := ps[..|ps| - 1];
      var p := ps[|ps| - 1];
      GatherFoldInv(paths, distance, fixedRef, init);
      forall q | q in init ensures PidLt(q, p) {
        var a :| 0 <= a < |init| && init[a] == q;
      }
      GatherStepInv(paths, distance, fixedRef, init, GatherFold(paths, distance, fixedRef, Gather([], {}), init), p);
      assert init + [p] == ps;
    }
  }

  /** getSimilarPoints: every cluster has at least two points of the paths,
      at most one per ring, in visiting order, and its middle is their
      mean; no point lies in two clusters. */
  lemma SimilarPointsSpec(paths: Paths, distance: real, fixedRef: bool)
    ensures var g := SimilarPoints(paths, distance, fixedRef);
      Disjoint(g.clusters) && forall c :: 0 <= c < |g.clusters| ==> GoodCluster(paths, g.clusters[c])
  {
    PidsFacts(paths, |paths|);
    GatherFoldInv(paths, distance, fixedRef, PidsUpTo(paths, |paths|));
  }

  // ---------------------------------------------------------------------
  // stickSimilarCurves

  /** paths with the point at p replaced by v. */
  function SetAt(paths: Paths, p: Pid, v: Point): (r: Paths)
    requires ValidPid(paths, p)
    ensures SameLayout(r, paths)
    ensures forall q :: ValidPid(paths, q) ==> ValidPid(r, q)
  {
    paths[p.shape := paths[p.shape][p.ring := paths[p.shape][p.ring][p.index := v]]]
  }

  predicate SameLayout(a: Paths, b: Paths) {
    |a| == |b| &&
    forall i :: 0 <= i < |a| ==>
      (|a[i]| == |b[i]| && forall j :: 0 <= j < |a[i]| ==> |a[i][j]| == |b[i][j]|)
  }

  /** Every point of the cluster's list set to v, one after the other. */
  function StickPts(paths: Paths, pts: seq<Pid>, v: Point): (r: Paths)
    requires forall p :: p in pts ==> ValidPid(paths, p)
    ensures SameLayout(r, paths)
    ensures forall q :: ValidPid(paths, q) ==> ValidPid(r, q)
    decreases |pts|
  {
    if |pts| == 0 then paths
    else SetAt(StickPts(paths, pts[..|pts| - 1], v), pts[|pts| - 1], v)
  }

  /** The first n clusters applied in order. */
  function StickUpTo(paths: Paths, clusters: seq<Sim>, n: nat): (r: Paths)
    requires n <= |clusters|
    requires forall c, p :: 0 <= c < |clusters| && p in clusters[c].pts ==> ValidPid(paths, p)
    ensures SameLayout(r, paths)
    ensures forall q :: ValidPid(paths, q) ==> ValidPid(r, q)
  {
    if n == 0 then paths
    else
      var prev := StickUpTo(paths, clusters, n - 1);
      assert forall p :: p in clusters[n - 1].pts ==> ValidPid(prev, p);
      StickPts(prev, clusters[n - 1].pts, clusters[n - 1].middle)
  }

  lemma {:induction false} StickPtsAt(paths: Paths, pts: seq<Pid>, v: Point, q: Pid)
    requires forall p :: p in pts ==> ValidPid(paths, p)
    requires ValidPid(paths, q)
    ensures At(StickPts(paths, pts, v), q) == if q in pts then v else At(paths, q)
    decreases |pts|
  {
    if |pts| > 0 {
      StickPtsAt(paths, pts[..|pts| - 1], v, q);
      assert pts == pts[..|pts| - 1] + [pts[|pts| - 1]];
    }
  }

  /** Whether q is a point of one of the first n clusters. */
  ghost predicate InSome(clusters: seq<Sim>, n: nat, q: Pid)
    requires n <= |clusters|
  {
    exists c :: 0 <= c < n && q in clusters[c].pts
  }

  /** The point q lies in at most one of the clusters. */
  ghost predicate OneOwner(clusters: seq<Sim>, q: Pid) {
    forall c1, c2 :: 0 <= c1 < c2 < |clusters| && q in clusters[c1].pts ==> q !in clusters[c2].pts
  }

  lemma StickUpToAt(paths: Paths, clusters: seq<Sim>, n: nat, q: Pid)
    requires n <= |clusters|
    requires forall c, p :: 0 <= c < |clusters| && p in clusters[c].pts ==> ValidPid(paths, p)
    requires OneOwner(clusters, q) && ValidPid(paths, q)
    ensures forall c :: 0 <= c < n && q in clusters[c].pts ==> At(StickUpTo(paths, clusters, n), q) == clusters[c].middle
    ensures !InSome(clusters, n, q) ==> At(StickUpTo(paths, clusters, n), q) == At(paths, q)
  {
    forall c | 0 <= c < n && q in clusters[c].pts
      ensures At(StickUpTo(paths, clusters, n), q) == clusters[c].middle
    {
      assert forall c2 :: c < c2 < n ==> q !in clusters[c2].pts;
      StickUpToOwned(paths, clusters, n, q, c);
    }
    if !InSome(clusters, n, q) {
      StickUpToUnowned(paths, clusters, n, q);
    }
  }

  /** A point of cluster c takes its middle once cluster c is stuck. */
  lemma {:induction false} StickUpToOwned(paths: Paths, clusters: seq<Sim>, n: nat, q: Pid, c: nat)
    requires c < n <= |clusters|
    requires forall c, p :: 0 <= c < |clusters| && p in clusters[c].pts ==> ValidPid(paths, p)
    requires ValidPid(paths, q) && q in clusters[c].pts
    requires forall c2 :: c < c2 < n ==> q !in clusters[c2].pts
    ensures At(StickUpTo(paths, clusters, n), q) == clusters[c].middle
  {
    if c + 1 == n {
      StickLastOwned(paths, clusters, c, n, q);
    } else {
      StickUpToOwned(paths, clusters, n - 1, q, c);
      StickLastKeeps(paths, clusters, n - 1, n, q);
    }
  }

  /** A point of cluster k takes its middle when cluster k is applied. */
  lemma StickLastOwned(paths: Paths, clusters: seq<Sim>, k: nat, n: nat, q: Pid)
    requires k + 1 == n <= |clusters|
    requires forall c, p :: 0 <= c < |clusters| && p in clusters[c].pts ==> ValidPid(paths, p)
    requires ValidPid(paths, q) && q in clusters[k].pts
    ensures At(StickUpTo(paths, clusters, n), q) == clusters[k].middle
  {
    StickUpToLast(paths, clusters, k, n);
    StickPtsAt(StickUpTo(paths, clusters, k), clusters[k].pts, clusters[k].middle, q);
  }

  /** A point outside cluster k keeps its value when cluster k is applied. */
  lemma StickLastKeeps(paths: Paths, clusters: seq<Sim>, k: nat, n: nat, q: Pid)
    requires k + 1 == n <= |clusters|
    requires forall c, p :: 0 <= c < |clusters| && p in clusters[c].pts ==> ValidPid(paths, p)
    requires ValidPid(paths, q) && q !in clusters[k].pts
    ensures At(StickUpTo(paths, clusters, n), q) == At(StickUpTo(paths, clusters, k), q)
  {
    StickUpToLast(paths, clusters, k, n);
    StickPtsAt(StickUpTo(paths, clusters, k), clusters[k].pts, clusters[k].middle, q);
  }

  /** A point in none of the first n clusters keeps its value. */
  lemma {:induction false} StickUpToUnowned(paths: Paths, clusters: seq<Sim>, n: nat, q: Pid)
    requires n <= |clusters|
    requires forall c, p :: 0 <= c < |clusters| && p in clusters[c].pts ==> ValidPid(paths, p)
    requires ValidPid(paths, q) && !InSome(clusters, n, q)
    ensures At(StickUpTo(paths, clusters, n), q) == At(paths, q)
  {
    if n > 0 {
      assert q !in clusters[n - 1].pts;
      assert !InSome(clusters, n - 1, q);
      StickUpToUnowned(paths, clusters, n - 1, q);
      StickLastKeeps(paths, clusters, n - 1, n, q);
    }
  }

  /** In disjoint clusters every point has at most one owner. */
  lemma DisjointOneOwner(clusters: seq<Sim>, q: Pid)
    requires Disjoint(clusters)
    ensures OneOwner(clusters, q)
  {
    forall c1, c2 | 0 <= c1 < c2 < |clusters| && q in clusters[c1].pts ensures q !in clusters[c2].pts {
      var a :| 0 <= a < |clusters[c1].pts| && clusters[c1].pts[a] == q;
      var last := clusters[c2].pts;
      assert forall b :: 0 <= b < |last| ==> last[b] != q;
    }
  }

  /** stickSimilarCurves with disjoint clusters: every point of a cluster
      takes the cluster's middle, every other point keeps its value, and no
      ring changes length. */
  lemma StickSpec(paths: Paths, clusters: seq<Sim>)
    requires forall c, p :: 0 <= c < |clusters| && p in clusters[c].pts ==> ValidPid(paths, p)
    requires Disjoint(clusters)
    ensures SameLayout(StickUpTo(paths, clusters, |clusters|), paths)
    ensures forall c, p :: 0 <= c < |clusters| && p in clusters[c].pts ==>
              At(StickUpTo(paths, clusters, |clusters|), p) == clusters[c].middle
    ensures forall q :: ValidPid(paths, q) && !InSome(clusters, |clusters|, q) ==>
              At(StickUpTo(paths, clusters, |clusters|), q) == At(paths, q)
  {
    forall q | ValidPid(paths, q)
      ensures forall c :: 0 <= c < |clusters| && q in clusters[c].pts ==>
                At(StickUpTo(paths, clusters, |clusters|), q) == clusters[c].middle
      ensures !InSome(clusters, |clusters|, q) ==> At(StickUpTo(paths, clusters, |clusters|), q) == At(paths, q)
    {
      DisjointOneOwner(clusters, q);
      StickUpToAt(paths, clusters, |clusters|, q);
    }
  }

  /** The points of good clusters are points of the paths. */
  lemma ClustersValid(paths: Paths, cs: seq<Sim>)
    requires forall c :: 0 <= c < |cs| ==> GoodCluster(paths, cs[c])
    ensures forall c, p :: 0 <= c < |cs| && p in cs[c].pts ==> ValidPid(paths, p)
  {
    forall c, p | 0 <= c < |cs| && p in cs[c].pts ensures ValidPid(paths, p) {
      assert GoodCluster(paths, cs[c]);
    }
  }

  /** One more cluster stuck: its points are still points of the paths. */
  lemma StickUpToNext(paths: Paths, clusters: seq<Sim>, n: nat)
    requires n < |clusters|
    requires forall c, p :: 0 <= c < |clusters| && p in clusters[c].pts ==> ValidPid(paths, p)
    ensures forall p :: p in clusters[n].pts ==> ValidPid(StickUpTo(paths, clusters, n), p)
    ensures StickUpTo(paths, clusters, n + 1) ==
            StickPts(StickUpTo(paths, clusters, n), clusters[n].pts, clusters[n].middle)
  {
  }

  /** StickUpToNext seen from n: the last of the first n clusters is applied last. */
  lemma StickUpToLast(paths: Paths, clusters: seq<Sim>, k: nat, n: nat)
    requires k + 1 == n <= |clusters|
    requires forall c, p :: 0 <= c < |clusters| && p in clusters[c].pts ==> ValidPid(paths, p)
    ensures forall p :: p in clusters[k].pts ==> ValidPid(StickUpTo(paths, clusters, k), p)
    ensures StickUpTo(paths, clusters, n) ==
            StickPts(StickUpTo(paths, clusters, k), clusters[k].pts, clusters[k].middle)
  {
  }

  /** The paths after stickSimilarCurves: every cluster of getSimilarPoints
      applied in order. */
  function Snapped(paths: Paths, distance: real, fixedRef: bool): Paths {
    SimilarPointsSpec(paths, distance, fixedRef);
    var cs := SimilarPoints(paths, distance, fixedRef).clusters;
    StickUpTo(paths, cs, |cs|)
  }

  /** After stickSimilarCurves every gathered point holds the mean of the
      old values of its cluster's points, and every other point is as it
      was. */
  lemma SnapToMean(paths: Paths, distance: real, fixedRef: bool)
    ensures var cs := SimilarPoints(paths, distance, fixedRef).clusters;
      (forall c, p :: 0 <= c < |cs| && p in cs[c].pts ==> ValidPid(paths, p)) &&
      SameLayout(Snapped(paths, distance, fixedRef), paths) &&
      (forall c, p :: 0 <= c < |cs| && p in cs[c].pts ==>
         At(Snapped(paths, distance, fixedRef), p) == MeanOf(paths, cs[c].pts)) &&
      (forall q :: ValidPid(paths, q) && !InSome(cs, |cs|, q) ==> At(Snapped(paths, distance, fixedRef), q) == At(paths, q))
  {
    SimilarPointsSpec(paths, distance, fixedRef);
    var cs := SimilarPoints(paths, distance, fixedRef).clusters;
    StickSpec(paths, cs);
  }

  // ---------------------------------------------------------------------
  // The reference point of a search

  /** Ring r holds an unmarked point closer than distance to the point at ref. */
  ghost predicate HasCandidate(paths: Paths, ref: Pid, distance: real, marks: set<Pid>, r: RingId)
    requires ValidPid(paths, ref) && ValidRing(paths, r)
  {
    exists k :: 0 <= k < |RingAt(paths, r)| && Pid(r.shape, r.ring, k) !in marks &&
      DistanceSqrd(RingAt(paths, r)[k], At(paths, ref)) < distance
  }

  /** Three shapes, each one ring holding the point (1, 1). */
  function ThreeCopies(): Paths {
    [[[Point(1.0, 1.0)]], [[Point(1.0, 1.0)]], [[Point(1.0, 1.0)]]]
  }

  lemma ThreeCopiesRings()
    ensures RingIdsUpTo(ThreeCopies(), 3) == [RingId(0, 0), RingId(1, 0), RingId(2, 0)]
  {
    var paths := ThreeCopies();
    assert RingIdsUpTo(paths, 1) == [RingId(0, 0)];
    assert RingIdsUpTo(paths, 2) == [RingId(0, 0), RingId(1, 0)];
  }

  lemma ThreeCopiesFirstTwo()
    ensures SearchFold(ThreeCopies(), Pid(0, 0, 0), 1.0, false, StartSearch(ThreeCopies(), Pid(0, 0, 0), {}),
                       [RingId(0, 0), RingId(1, 0)])
         == Search(Sim(Point(2.0, 2.0), [Pid(0, 0, 0), Pid(1, 0, 0)]), {Pid(1, 0, 0)})
  {
    var paths := ThreeCopies();
    var ref := Pid(0, 0, 0);
    var s0 := StartSearch(paths, ref, {});
    var ids := [RingId(0, 0), RingId(1, 0)];
    assert ids[..1] == [RingId(0, 0)] && [RingId(0, 0)][..0] == [];
    assert SearchFold(paths, ref, 1.0, false, s0, ids[..1]) == s0;
    assert PickUpTo(paths, RingId(1, 0), Point(1.0, 1.0), 1.0, {}, 1) == Best(0, 0.0);
  }

  lemma ThreeCopiesThirdPick()
    ensures PickUpTo(ThreeCopies(), RingId(2, 0), Point(2.0, 2.0), 1.0, {Pid(1, 0, 0)}, 1) == Best(-1, -1.0)
  {
    var paths := ThreeCopies();
    assert RingAt(paths, RingId(2, 0)) == [Point(1.0, 1.0)];
    assert PickUpTo(paths, RingId(2, 0), Point(2.0, 2.0), 1.0, {Pid(1, 0, 0)}, 0) == Best(-1, -1.0);
    assert DistanceSqrd(Point(1.0, 1.0), Point(2.0, 2.0)) == 2.0;
  }

  lemma ThreeCopiesThird()
    ensures var st := Search(Sim(Point(2.0, 2.0), [Pid(0, 0, 0), Pid(1, 0, 0)]), {Pid(1, 0, 0)});
      RingStep(ThreeCopies(), Pid(0, 0, 0), 1.0, false, st, RingId(2, 0)) == st
  {
    ThreeCopiesThirdPick();
  }

  /** As written: with three rings each holding the point (1, 1), the second
      ring's copy joins the cluster of the first; the running sum is then
      (2, 2), so the third ring's copy, at distance 0 from the reference
      point, is left out. */
  lemma RunningSumMissesCoincidentPoint()
    ensures ValidPid(ThreeCopies(), Pid(0, 0, 0)) && ValidRing(ThreeCopies(), RingId(2, 0))
    ensures HasCandidate(ThreeCopies(), Pid(0, 0, 0), 1.0, {}, RingId(2, 0))
    ensures ToFirst(ThreeCopies(), Pid(0, 0, 0), 1.0, false, {}).sim.pts == [Pid(0, 0, 0), Pid(1, 0, 0)]
  {
    var paths := ThreeCopies();
    var ref := Pid(0, 0, 0);
    ThreeCopiesRings();
    ThreeCopiesFirstTwo();
    ThreeCopiesThird();
    var ids := [RingId(0, 0), RingId(1, 0), RingId(2, 0)];
    assert ids[..2] == [RingId(0, 0), RingId(1, 0)];
    assert DistanceSqrd(RingAt(paths, RingId(2, 0))[0], At(paths, ref)) == 0.0;
  }

  /** Compared against the reference point, a search gathers only points
      closer than distance to it, and one from every later ring that holds
      such a point unmarked. */
  ghost predicate FixedInv(paths: Paths, ref: Pid, distance: real, marks0: set<Pid>, ids: seq<RingId>, s: Search)
    requires ValidPid(paths, ref) && forall r :: r in ids ==> ValidRing(paths, r)
    requires forall p :: p in s.sim.pts ==> ValidPid(paths, p)
  {
    (forall a :: 1 <= a < |s.sim.pts| ==> DistanceSqrd(At(paths, s.sim.pts[a]), At(paths, ref)) < distance) &&
    (forall r :: r in ids && RingLt(RingOf(ref), r) && HasCandidate(paths, ref, distance, marks0, r) ==>
       exists a :: 1 <= a < |s.sim.pts| && RingOf(s.sim.pts[a]) == r)
  }

  /** A ring holding an unmarked point close to the reference point yields
      a pick: the points marked during the search lie in earlier rings. */
  lemma FixedPickFound(paths: Paths, ref: Pid, distance: real, marks0: set<Pid>, ids: seq<RingId>, s: Search, r: RingId)
    requires ValidPid(paths, ref) && ValidRing(paths, r)
    requires forall x :: x in ids ==> RingLt(x, r)
    requires SearchInv(paths, ref, marks0, ids, s)
    requires HasCandidate(paths, ref, distance, marks0, r)
    ensures PickUpTo(paths, r, At(paths, ref), distance, s.marks, |RingAt(paths, r)|).id >= 0
  {
    var pts := s.sim.pts;
    var target := At(paths, ref);
    PickSpec(paths, r, target, distance, s.marks, |RingAt(paths, r)|);
    var k :| 0 <= k < |RingAt(paths, r)| && Pid(r.shape, r.ring, k) !in marks0 &&
             DistanceSqrd(RingAt(paths, r)[k], target) < distance;
    if Pid(r.shape, r.ring, k) in s.marks {
      MarkedBefore(paths, ref, marks0, ids, s, Pid(r.shape, r.ring, k));
    }
  }

  /** A point a search marked lies in a ring already visited. */
  lemma MarkedBefore(paths: Paths, ref: Pid, marks0: set<Pid>, ids: seq<RingId>, s: Search, q: Pid)
    requires SearchInv(paths, ref, marks0, ids, s) && q in s.marks && q !in marks0
    ensures RingOf(q) in ids
  {
    var pts := s.sim.pts;
    var a :| 0 <= a < |pts[1..]| && pts[1..][a] == q;
    assert RingOf(pts[a + 1]) in ids;
  }

  lemma FixedStepInv(paths: Paths, ref: Pid, distance: real, marks0: set<Pid>, ids: seq<RingId>, s: Search, r: RingId)
    requires ValidPid(paths, ref) && ValidRing(paths, r) && forall x :: x in ids ==> ValidRing(paths, x)
    requires forall x :: x in ids ==> RingLt(x, r)
    requires SearchInv(paths, ref, marks0, ids, s) && FixedInv(paths, ref, distance, marks0, ids, s)
    ensures SearchInv(paths, ref, marks0, ids + [r], RingStep(paths, ref, distance, true, s, r))
    ensures FixedInv(paths, ref, distance, marks0, ids + [r], RingStep(paths, ref, distance, true, s, r))
  {
    SearchStepInv(paths, ref, distance, true, marks0, ids, s, r);
    var b := PickUpTo(paths, r, At(paths, ref), distance, s.marks, |RingAt(paths, r)|);
    if RingLt(RingOf(ref), r) && b.id >= 0 {
      FixedStepAdd(paths, ref, distance, marks0, ids, s, r);
    } else {
      FixedStepKeep(paths, ref, distance, marks0, ids, s, r);
    }
  }

  /** The fixed-reference step when ring r has a candidate. */
  lemma FixedStepAdd(paths: Paths, ref: Pid, distance: real, marks0: set<Pid>, ids: seq<RingId>, s: Search, r: RingId)
    requires ValidPid(paths, ref) && ValidRing(paths, r) && forall x :: x in ids ==> ValidRing(paths, x)
    requires SearchInv(paths, ref, marks0, ids, s) && FixedInv(paths, ref, distance, marks0, ids, s)
    requires RingLt(RingOf(ref), r) && PickUpTo(paths, r, At(paths, ref), distance, s.marks, |RingAt(paths, r)|).id >= 0
    ensures FixedInv(paths, ref, distance, marks0, ids + [r], RingStep(paths, ref, distance, true, s, r))
  {
    var target := At(paths, ref);
    var b := PickUpTo(paths, r, target, distance, s.marks, |RingAt(paths, r)|);
    var p := Pid(r.shape, r.ring, b.id);
    PickClose(paths, r, target, distance, s.marks);
    assert RingStep(paths, ref, distance, true, s, r) ==
           Search(Sim(Point(s.sim.middle.x + At(paths, p).x, s.sim.middle.y + At(paths, p).y), s.sim.pts + [p]), s.marks + {p});
    FixedAddInv(paths, ref, distance, marks0, ids, s, r, p);
  }

  /** The fixed-reference step when ring r has no candidate or comes
      before the reference ring. */
  lemma FixedStepKeep(paths: Paths, ref: Pid, distance: real, marks0: set<Pid>, ids: seq<RingId>, s: Search, r: RingId)
    requires ValidPid(paths, ref) && ValidRing(paths, r) && forall x :: x in ids ==> ValidRing(paths, x)
    requires forall x :: x in ids ==> RingLt(x, r)
    requires SearchInv(paths, ref, marks0, ids, s) && FixedInv(paths, ref, distance, marks0, ids, s)
    requires !(RingLt(RingOf(ref), r) && PickUpTo(paths, r, At(paths, ref), distance, s.marks, |RingAt(paths, r)|).id >= 0)
    ensures FixedInv(paths, ref, distance, marks0, ids + [r], RingStep(paths, ref, distance, true, s, r))
  {
    if RingLt(RingOf(ref), r) && HasCandidate(paths, ref, distance, marks0, r) {
      FixedPickFound(paths, ref, distance, marks0, ids, s, r);
    }
    assert RingStep(paths, ref, distance, true, s, r) == s;
    FixedKeepInv(paths, ref, distance, marks0, ids, s, r);
  }

  /** The candidate of a ring, when there is one, is closer than distance
      to the target. */
  lemma PickClose(paths: Paths, r: RingId, target: Point, distance: real, marks: set<Pid>)
    requires ValidRing(paths, r)
    ensures var b := PickUpTo(paths, r, target, distance, marks, |RingAt(paths, r)|);
      b.id >= 0 ==> DistanceSqrd(RingAt(paths, r)[b.id], target) < distance
  {
    PickSpec(paths, r, target, distance, marks, |RingAt(paths, r)|);
  }

  /** A point of ring r close to the reference point joining the cluster
      keeps the fixed-reference invariant. */
  lemma FixedAddInv(paths: Paths, ref: Pid, distance: real, marks0: set<Pid>, ids: seq<RingId>, s: Search, r: RingId, p: Pid)
    requires ValidPid(paths, ref) && ValidRing(paths, r) && forall x :: x in ids ==> ValidRing(paths, x)
    requires ValidPid(paths, p) && RingOf(p) == r && DistanceSqrd(At(paths, p), At(paths, ref)) < distance
    requires |s.sim.pts| >= 1 && forall q :: q in s.sim.pts ==> ValidPid(paths, q)
    requires FixedInv(paths, ref, distance, marks0, ids, s)
    ensures FixedInv(paths, ref, distance, marks0, ids + [r],
                     Search(Sim(Point(s.sim.middle.x + At(paths, p).x, s.sim.middle.y + At(paths, p).y), s.sim.pts + [p]),
                            s.marks + {p}))
  {
    var pts := s.sim.pts;
    var pts' := pts + [p];
    forall a | 1 <= a < |pts'| ensures DistanceSqrd(At(paths, pts'[a]), At(paths, ref)) < distance {
      if a < |pts| {
        assert pts'[a] == pts[a];
      }
    }
    forall x | x in ids + [r] && RingLt(RingOf(ref), x) && HasCandidate(paths, ref, distance, marks0, x)
      ensures exists a :: 1 <= a < |pts'| && RingOf(pts'[a]) == x
    {
      if x in ids {
        var a :| 1 <= a < |pts| && RingOf(pts[a]) == x;
        assert pts'[a] == pts[a];
      } else {
        assert RingOf(pts'[|pts'| - 1]) == x;
      }
    }
  }

  /** A ring that adds nothing keeps the fixed-reference invariant when it
      holds no candidate after the reference point's ring. */
  lemma FixedKeepInv(paths: Paths, ref: Pid, distance: real, marks0: set<Pid>, ids: seq<RingId>, s: Search, r: RingId)
    requires ValidPid(paths, ref) && ValidRing(paths, r) && forall x :: x in ids ==> ValidRing(paths, x)
    requires forall q :: q in s.sim.pts ==> ValidPid(paths, q)
    requires FixedInv(paths, ref, distance, marks0, ids, s)
    requires !(RingLt(RingOf(ref), r) && HasCandidate(paths, ref, distance, marks0, r))
    ensures FixedInv(paths, ref, distance, marks0, ids + [r], s)
  {
    forall x | x in ids + [r] && RingLt(RingOf(ref), x) && HasCandidate(paths, ref, distance, marks0, x)
      ensures exists a :: 1 <= a < |s.sim.pts| && RingOf(s.sim.pts[a]) == x
    {
      assert x in ids;
    }
  }

  lemma {:induction false} FixedFoldInv(paths: Paths, ref: Pid, distance: real, marks0: set<Pid>, ids: seq<RingId>)
    requires ValidPid(paths, ref) && (forall r :: r in ids ==> ValidRing(paths, r)) && RingsIncreasing(ids)
    ensures var s := SearchFold(paths, ref, distance, true, StartSearch(paths, ref, marks0), ids);
      SearchInv(paths, ref, marks0, ids, s) && FixedInv(paths, ref, distance, marks0, ids, s)
    decreases |ids|
  {
    SearchFoldInv(paths, ref, distance, true, marks0, ids);
    if |ids| > 0 {
      var init := ids[..|ids| - 1];
      var r := ids[|ids| - 1];
      assert init + [r] == ids;
      assert forall x :: x in init ==> x in ids;
      FixedFoldInv(paths, ref, distance, marks0, init);
      IncreasingLast(init, r);
      var start := StartSearch(paths, ref, marks0);
      var prev := SearchFold(paths, ref, distance, true, start, init);
      FixedStepInv(paths, ref, distance, marks0, init, prev, r);
      SearchFoldSnoc(paths, ref, distance, true, start, init, r);
    }
  }

  /** Compared against the reference point, getSimilarPointsToFirst gathers
      only points closer than distance to it, and one from every later ring
      that holds such a point unmarked. */
  lemma FixedReferenceComplete(paths: Paths, ref: Pid, distance: real, marks: set<Pid>)
    requires ValidPid(paths, ref)
    ensures var s := ToFirst(paths, ref, distance, true, marks);
      (forall p :: p in s.sim.pts ==> ValidPid(paths, p)) &&
      (forall a :: 1 <= a < |s.sim.pts| ==> DistanceSqrd(At(paths, s.sim.pts[a]), At(paths, ref)) < distance) &&
      (forall r :: ValidRing(paths, r) && RingLt(RingOf(ref), r) && HasCandidate(paths, ref, distance, marks, r) ==>
         exists a :: 1 <= a < |s.sim.pts| && RingOf(s.sim.pts[a]) == r)
  {
    RingIdsFacts(paths, |paths|);
    var ids := RingIdsUpTo(paths, |paths|);
    FixedFoldInv(paths, ref, distance, marks, ids);
    forall r | ValidRing(paths, r) ensures r in ids {
      RingIdsMember(paths, |paths|, r);
    }
  }

  lemma {:induction false} RingIdsMember(paths: Paths, n: nat, r: RingId)
    requires n <= |paths| && ValidRing(paths, r) && r.shape < n
    ensures r in RingIdsUpTo(paths, n)
  {
    if r.shape < n - 1 {
      RingIdsMember(paths, n - 1, r);
    } else {
      assert ShapeRingIds(paths, n - 1, |paths[n - 1]|)[r.ring] == r;
    }
  }
}
