/** Triangle-index repair of SVG3DScene (js/SVGtoSTL.js): after a shape is
    triangulated, every ring vertex no triangle uses is put back by
    splitting the triangle over its two ring neighbours
    (splitTrianglesAddMissingVertices), and every ring edge no triangle
    has is put back by splitting the triangle of the nearest triangle edge
    (reintroduceMissingEdges). Triangles are index triples into the flat
    list of the shape's contour and hole points. */
module Repair {
  import opened Geometry
  import opened Options

  /** A triangle: three vertex ids (a JavaScript array of length 3). */
  type Triangle = t: seq<nat> | |t| == 3 witness [0, 0, 0]

  /** indexOf: the first position of x in t, or -1. */
  function IndexOf(t: seq<nat>, x: nat): (k: int)
    ensures -1 <= k < |t|
    ensures k == -1 <==> x !in t
    ensures k >= 0 ==> t[k] == x && forall j :: 0 <= j < k ==> t[j] != x
  {
    if |t| == 0 then -1
    else if t[0] == x then 0
    else
      var k := IndexOf(t[1..], x);
      if k == -1 then -1 else k + 1
  }

  /** Every vertex id of the triangles is below n. */
  predicate TrianglesIn(tris: seq<Triangle>, n: nat) {
    forall t, c :: 0 <= t < |tris| && 0 <= c < 3 ==> tris[t][c] < n
  }

  // ---------------------------------------------------------------------
  // findNeighborNotNull

  /** One step of the do-while of findNeighborNotNull over a list of n
      entries: forward or backward, wrapping around at the ends. */
  function Next(n: nat, r: nat, step: int): nat
    requires r < n && (step == 1 || step == -1)
  {
    if r == n - 1 && step == 1 then 0
    else if r == 0 && step == -1 then n - 1
    else r + step
  }

  /** The index reached after k steps from id. */
  function Walk(n: nat, id: nat, step: int, k: nat): (r: nat)
    requires id < n && (step == 1 || step == -1)
    ensures r < n
  {
    if k == 0 then id else Next(n, Walk(n, id, step, k - 1), step)
  }

  /** k steps forward from id land on id + k, wrapped once; k steps back
      on id - k, wrapped once. */
  lemma {:induction false} WalkAt(n: nat, id: nat, step: int, k: nat)
    requires id < n && (step == 1 || step == -1) && k <= n
    ensures step == 1 ==> Walk(n, id, step, k) == if id + k < n then id + k else id + k - n
    ensures step == -1 ==> Walk(n, id, step, k) == if k <= id then id - k else id - k + n
  {
    if k > 0 {
      WalkAt(n, id, step, k - 1);
      var r := Walk(n, id, step, k - 1);
      assert Walk(n, id, step, k) == Next(n, r, step);
    }
  }

  /** How many steps the walk from id takes to reach j. */
  function StepsTo(n: nat, id: nat, step: int, j: nat): nat
    requires id < n && j < n && (step == 1 || step == -1)
  {
    if step == 1 then (if j >= id then j - id else j - id + n)
    else (if j <= id then id - j else id - j + n)
  }

  /** The walk is back at id after n steps, not before, and reaches every
      other index j after StepsTo(j) steps. */
  lemma WalkCovers(n: nat, id: nat, step: int)
    requires id < n && (step == 1 || step == -1)
    ensures Walk(n, id, step, n) == id
    ensures forall k :: 1 <= k < n ==>
      Walk(n, id, step, k) != id && StepsTo(n, id, step, Walk(n, id, step, k)) == k
    ensures forall j :: 0 <= j < n && j != id ==>
      1 <= StepsTo(n, id, step, j) < n && Walk(n, id, step, StepsTo(n, id, step, j)) == j
  {
    WalkAt(n, id, step, n);
    forall k | 1 <= k < n
      ensures Walk(n, id, step, k) != id && StepsTo(n, id, step, Walk(n, id, step, k)) == k
    {
      WalkAt(n, id, step, k);
    }
    forall j | 0 <= j < n && j != id
      ensures 1 <= StepsTo(n, id, step, j) < n && Walk(n, id, step, StepsTo(n, id, step, j)) == j
    {
      WalkAt(n, id, step, StepsTo(n, id, step, j));
    }
  }

  /** The do-while from its k-th step on: null when the walk is back at id,
      the index when it holds a non-zero count, else one more step. */
  function NeighborFrom(list: seq<nat>, id: nat, step: int, k: nat): Option<nat>
    requires id < |list| && (step == 1 || step == -1) && 1 <= k <= |list|
    decreases |list| - k
  {
    var r := Walk(|list|, id, step, k);
    if r == id then None
    else if list[r] != 0 then Some(r)
    else if k == |list| then None
    else NeighborFrom(list, id, step, k + 1)
  }

  /** What findNeighborNotNull(list, id, step) returns. */
  function NeighborNotNull(list: seq<nat>, id: nat, step: int): Option<nat>
    requires id < |list| && (step == 1 || step == -1)
  {
    NeighborFrom(list, id, step, 1)
  }

  lemma {:induction false} NeighborFromSpec(list: seq<nat>, id: nat, step: int, k: nat)
    requires id < |list| && (step == 1 || step == -1) && 1 <= k <= |list|
    requires forall j :: 1 <= j < k ==> list[Walk(|list|, id, step, j)] == 0
    ensures var res := NeighborFrom(list, id, step, k);
      (res.Some? ==> res.value < |list| && res.value != id && list[res.value] != 0 &&
                     forall j :: 1 <= j < StepsTo(|list|, id, step, res.value) ==>
                       list[Walk(|list|, id, step, j)] == 0) &&
      (res.None? ==> forall j :: 1 <= j < |list| ==> list[Walk(|list|, id, step, j)] == 0)
    decreases |list| - k
  {
    var r := Walk(|list|, id, step, k);
    if r == id {
      NeighborBackHome(list, id, step, k);
    } else if list[r] != 0 {
      NeighborFoundAt(list, id, step, k);
    } else if k < |list| {
      NeighborFromSpec(list, id, step, k + 1);
      assert NeighborFrom(list, id, step, k) == NeighborFrom(list, id, step, k + 1);
    } else {
      WalkCovers(|list|, id, step);
    }
  }

  /** The walk is back at id only after a full turn, having seen only zeros. */
  lemma NeighborBackHome(list: seq<nat>, id: nat, step: int, k: nat)
    requires id < |list| && (step == 1 || step == -1) && 1 <= k <= |list|
    requires forall j :: 1 <= j < k ==> list[Walk(|list|, id, step, j)] == 0
    requires Walk(|list|, id, step, k) == id
    ensures NeighborFrom(list, id, step, k) == None
    ensures forall j :: 1 <= j < |list| ==> list[Walk(|list|, id, step, j)] == 0
  {
    WalkCovers(|list|, id, step);
    assert k == |list|;
  }

  /** A non-zero count at step k is reached after exactly k steps. */
  lemma NeighborFoundAt(list: seq<nat>, id: nat, step: int, k: nat)
    requires id < |list| && (step == 1 || step == -1) && 1 <= k <= |list|
    requires Walk(|list|, id, step, k) != id && list[Walk(|list|, id, step, k)] != 0
    ensures NeighborFrom(list, id, step, k) == Some(Walk(|list|, id, step, k))
    ensures StepsTo(|list|, id, step, Walk(|list|, id, step, k)) == k
  {
    WalkCovers(|list|, id, step);
  }

  /** findNeighborNotNull returns an index other than id with a non-zero
      count, reached by stepping from id over zero counts only; it returns
      null exactly when every other count is zero. */
  lemma NeighborSpec(list: seq<nat>, id: nat, step: int)
    requires id < |list| && (step == 1 || step == -1)
    ensures var res := NeighborNotNull(list, id, step);
      (res.Some? ==> res.value < |list| && res.value != id && list[res.value] != 0 &&
                     forall j :: 1 <= j < StepsTo(|list|, id, step, res.value) ==>
                       list[Walk(|list|, id, step, j)] == 0) &&
      (res.None? <==> forall j :: 0 <= j < |list| && j != id ==> list[j] == 0)
  {
    NeighborFromSpec(list, id, step, 1);
    WalkCovers(|list|, id, step);
    var res := NeighborNotNull(list, id, step);
    if res.None? {
      forall j | 0 <= j < |list| && j != id ensures list[j] == 0 {
        assert list[Walk(|list|, id, step, StepsTo(|list|, id, step, j))] == 0;
      }
    }
  }

  /** findNeighborNotNull: the do-while stepping from id, wrapping at the
      ends, until it finds a non-zero count or comes back to id. */
  method FindNeighborNotNull(list: seq<nat>, id: nat, step: int) returns (res: Option<nat>)
    requires id < |list| && (step == 1 || step == -1)
    ensures res == NeighborNotNull(list, id, step)
  {
    WalkAt(|list|, id, step, |list|);
    var n := |list|;
    var r := id;
    ghost var k := 0;
    while true
      invariant 0 <= k < n && r == Walk(n, id, step, k)
      invariant NeighborFrom(list, id, step, k + 1) == NeighborNotNull(list, id, step)
      decreases n - k
    {
      if r == n - 1 && step == 1 {
        r := 0;
      } else if r == 0 && step == -1 {
        r := n - 1;
      } else {
        r := r + step;
      }
      k := k + 1;
      if r == id {
        return None;
      }
      if list[r] != 0 {
        return Some(r);
      }
    }
  }

  // ---------------------------------------------------------------------
  // findAndSplitTriangle

  /** The result of a split: triangle `before` is replaced by after[0], the
      rest of `after` is added. */
  datatype Split = Split(before: nat, after: seq<Triangle>)

  /** The first triangle from position i on holding both p1 and p2. */
  function FirstWithBoth(tris: seq<Triangle>, p1: nat, p2: nat, i: nat): (r: Option<nat>)
    requires i <= |tris|
    ensures r.Some? ==> i <= r.value < |tris| && p1 in tris[r.value] && p2 in tris[r.value]
    ensures forall k :: i <= k < |tris| && (r.None? || k < r.value) ==> !(p1 in tris[k] && p2 in tris[k])
    decreases |tris| - i
  {
    if i == |tris| then None
    else if p1 in tris[i] && p2 in tris[i] then Some(i)
    else FirstWithBoth(tris, p1, p2, i + 1)
  }

  /** What findAndSplitTriangle returns: the first triangle holding both
      p1 and p2, once with p1 and once with p2 replaced by newPoint. */
  function SplitAt(tris: seq<Triangle>, p1: nat, p2: nat, newPoint: nat): (r: Option<Split>)
    ensures r.None? <==> forall k :: 0 <= k < |tris| ==> !(p1 in tris[k] && p2 in tris[k])
    ensures r.Some? ==>
      var i := r.value.before;
      i < |tris| && p1 in tris[i] && p2 in tris[i] &&
      (forall k :: 0 <= k < i ==> !(p1 in tris[k] && p2 in tris[k])) &&
      r.value.after == [tris[i][IndexOf(tris[i], p1) := newPoint], tris[i][IndexOf(tris[i], p2) := newPoint]]
  {
    match FirstWithBoth(tris, p1, p2, 0)
    case None => None
    case Some(i) =>
      Some(Split(i, [tris[i][IndexOf(tris[i], p1) := newPoint], tris[i][IndexOf(tris[i], p2) := newPoint]]))
  }

  /** findAndSplitTriangle: a scan for the first triangle holding both
      points. */
  method FindAndSplitTriangle(tris: seq<Triangle>, p1: nat, p2: nat, newPoint: nat) returns (r: Option<Split>)
    ensures r == SplitAt(tris, p1, p2, newPoint)
  {
    var i := 0;
    while i < |tris|
      invariant 0 <= i <= |tris|
      invariant FirstWithBoth(tris, p1, p2, i) == FirstWithBoth(tris, p1, p2, 0)
    {
      var idp1 := IndexOf(tris[i], p1);
      var idp2 := IndexOf(tris[i], p2);
      if idp1 != -1 && idp2 != -1 {
        var t1 := tris[i][idp1 := newPoint];
        var t2 := tris[i][idp2 := newPoint];
        return Some(Split(i, [t1, t2]));
      }
      i := i + 1;
    }
    return None;
  }

  /** Splitting over a side p1-p2 of a triangle keeps the new triangles'
      ids below n when newPoint is. */
  lemma SplitAtIn(tris: seq<Triangle>, p1: nat, p2: nat, newPoint: nat, n: nat)
    requires TrianglesIn(tris, n) && newPoint < n
    ensures var r := SplitAt(tris, p1, p2, newPoint);
      r.Some? ==> TrianglesIn(r.value.after, n)
  {
  }

  // ---------------------------------------------------------------------
  // splitTrianglesAddMissingVertices

  /** How many corners of triangle t are the vertex v. */
  function Corners(t: Triangle, v: nat): nat {
    (if t[0] == v then 1 else 0) + (if t[1] == v then 1 else 0) + (if t[2] == v then 1 else 0)
  }

  /** How many corners of the triangles are the vertex v. */
  function Uses(tris: seq<Triangle>, v: nat): nat {
    if |tris| == 0 then 0
    else Uses(tris[..|tris| - 1], v) + Corners(tris[|tris| - 1], v)
  }

  lemma {:induction false} UsesZero(tris: seq<Triangle>, v: nat)
    ensures Uses(tris, v) == 0 <==> forall t :: 0 <= t < |tris| ==> v !in tris[t]
  {
    if |tris| > 0 {
      UsesZero(tris[..|tris| - 1], v);
      var last := tris[|tris| - 1];
      assert v in last <==> Corners(last, v) > 0;
      assert forall t :: 0 <= t < |tris| - 1 ==> tris[..|tris| - 1][t] == tris[t];
    }
  }

  /** The counts nbTriangles holds after the counting loop. */
  function Counts(tris: seq<Triangle>, total: nat): (c: seq<nat>)
    ensures |c| == total && forall v :: 0 <= v < total ==> c[v] == Uses(tris, v)
  {
    if total == 0 then [] else Counts(tris, total - 1) + [Uses(tris, total - 1)]
  }

  /** The nbTriangles counting loop: entry v counts the corners that are v. */
  method CountTriangles(tris: seq<Triangle>, total: nat) returns (counts: seq<nat>)
    requires TrianglesIn(tris, total)
    ensures counts == Counts(tris, total)
  {
    counts := seq(total, v => 0);
    var i := 0;
    while i < |tris|
      invariant 0 <= i <= |tris| && |counts| == total
      invariant counts == Counts(tris[..i], total)
    {
      var t := tris[i];
      CountsNext(tris, total, i, counts);
      counts := counts[t[0] := counts[t[0]] + 1];
      counts := counts[t[1] := counts[t[1]] + 1];
      counts := counts[t[2] := counts[t[2]] + 1];
      i := i + 1;
    }
    assert tris[..|tris|] == tris;
  }

  /** Counting the corners of triangle i adds one per corner. */
  lemma CountsNext(tris: seq<Triangle>, total: nat, i: nat, counts: seq<nat>)
    requires i < |tris| && TrianglesIn(tris, total) && counts == Counts(tris[..i], total)
    ensures var t := tris[i];
      var c1 := counts[t[0] := counts[t[0]] + 1];
      var c2 := c1[t[1] := c1[t[1]] + 1];
      c2[t[2] := c2[t[2]] + 1] == Counts(tris[..i + 1], total)
  {
    var t := tris[i];
    assert t[0] < total && t[1] < total && t[2] < total;
    assert tris[..i + 1][..i] == tris[..i];
    var c1 := counts[t[0] := counts[t[0]] + 1];
    var c2 := c1[t[1] := c1[t[1]] + 1];
    var c3 := c2[t[2] := c2[t[2]] + 1];
    var want := Counts(tris[..i + 1], total);
    forall v | 0 <= v < total ensures c3[v] == want[v] {
      assert want[v] == Uses(tris[..i], v) + Corners(t, v);
    }
  }

  /** The sum of the ring lengths: the number of points of the shape. */
  function Total(lens: seq<nat>): nat {
    if |lens| == 0 then 0 else Total(lens[..|lens| - 1]) + lens[|lens| - 1]
  }

  lemma {:induction false} TotalMono(lens: seq<nat>, i: nat)
    requires i < |lens|
    ensures Total(lens[..i]) + lens[i] <= Total(lens)
    decreases |lens| - i
  {
    assert lens[..i + 1][..i] == lens[..i];
    if i + 1 < |lens| {
      TotalMono(lens, i + 1);
    } else {
      assert lens[..i + 1] == lens;
    }
  }

  /** The ring neighbours findNeighborNotNull picks for vertex j of the
      ring that starts at off and has len points, as flat ids: only for an
      unused vertex (count zero) with used vertices on both sides. */
  function OrphanNeighbours(counts: seq<nat>, off: nat, len: nat, j: nat): Option<(nat, nat)>
    requires off + len <= |counts| && j < len
  {
    if counts[off + j] != 0 then None
    else
      var sub := counts[off..off + len];
      var pred := NeighborNotNull(sub, j, -1);
      var next := NeighborNotNull(sub, j, 1);
      if pred.None? || next.None? then None
      else Some((off + pred.value, off + next.value))
  }

  /** Orphan neighbours lie on the same ring, are not the orphan and are
      used by some triangle; there are none exactly when the vertex is
      used or no other vertex of its ring is. */
  lemma OrphanNeighboursSpec(counts: seq<nat>, off: nat, len: nat, j: nat)
    requires off + len <= |counts| && j < len
    ensures match OrphanNeighbours(counts, off, len, j)
      case Some((p1, p2)) =>
        counts[off + j] == 0 && off <= p1 < off + len && off <= p2 < off + len &&
        p1 != off + j && p2 != off + j && counts[p1] != 0 && counts[p2] != 0
      case None => true
    ensures OrphanNeighbours(counts, off, len, j).None? <==>
      counts[off + j] != 0 || forall v :: off <= v < off + len && v != off + j ==> counts[v] == 0
  {
    var sub := counts[off..off + len];
    NeighborSpec(sub, j, -1);
    NeighborSpec(sub, j, 1);
    if counts[off + j] == 0 {
      if NeighborNotNull(sub, j, -1).None? {
        forall v | off <= v < off + len && v != off + j ensures counts[v] == 0 {
          assert sub[v - off] == counts[v];
        }
      } else {
        var q := NeighborNotNull(sub, j, -1).value;
        assert counts[off + q] == sub[q] != 0;
      }
    }
  }

  /** Applying a split in the orphan loop: the triangle is overwritten by
      after[0] and after[1] is pushed. */
  function ApplySplit(tris: seq<Triangle>, s: Split): (r: seq<Triangle>)
    requires s.before < |tris| && |s.after| >= 2
    ensures |r| == |tris| + 1 && r[s.before] == s.after[0] && r[|tris|] == s.after[1]
    ensures forall k :: 0 <= k < |tris| && k != s.before ==> r[k] == tris[k]
  {
    tris[s.before := s.after[0]] + [s.after[1]]
  }

  /** The body of the orphan loop for vertex j: with the counts computed
      before the loop (they are never updated), an orphan goes into the
      first triangle holding both its neighbours. */
  function Orphan(counts: seq<nat>, off: nat, len: nat, j: nat, tris: seq<Triangle>): seq<Triangle>
    requires off + len <= |counts| && j < len
  {
    match OrphanNeighbours(counts, off, len, j)
    case None => tris
    case Some((p1, p2)) =>
      match SplitAt(tris, p1, p2, off + j)
      case None => tris
      case Some(s) => ApplySplit(tris, s)
  }

  /** The orphan loop over the first n vertices of one ring. */
  function OrphansOfRing(counts: seq<nat>, off: nat, len: nat, n: nat, tris: seq<Triangle>): seq<Triangle>
    requires off + len <= |counts| && n <= len
  {
    if n == 0 then tris
    else Orphan(counts, off, len, n - 1, OrphansOfRing(counts, off, len, n - 1, tris))
  }

  /** The orphan loop over the first m rings, whose lengths are lens. */
  function OrphansOfRings(counts: seq<nat>, lens: seq<nat>, m: nat, tris: seq<Triangle>): seq<Triangle>
    requires m <= |lens| && Total(lens) <= |counts|
  {
    if m == 0 then tris
    else
      TotalMono(lens, m - 1);
      OrphansOfRing(counts, Total(lens[..m - 1]), lens[m - 1], lens[m - 1],
                    OrphansOfRings(counts, lens, m - 1, tris))
  }

  /** What splitTrianglesAddMissingVertices returns for a shape whose
      contour and holes have lengths lens. */
  function AddMissingVertices(tris: seq<Triangle>, lens: seq<nat>): seq<Triangle>
    requires TrianglesIn(tris, Total(lens))
  {
    OrphansOfRings(Counts(tris, Total(lens)), lens, |lens|, tris)
  }

  /** One orphan step keeps every id below n and only ever adds a
      triangle. */
  lemma OrphanStep(counts: seq<nat>, off: nat, len: nat, j: nat, tris: seq<Triangle>, n: nat)
    requires off + len <= |counts| && j < len && TrianglesIn(tris, n) && off + len <= n
    ensures TrianglesIn(Orphan(counts, off, len, j, tris), n)
    ensures |Orphan(counts, off, len, j, tris)| >= |tris|
  {
    match OrphanNeighbours(counts, off, len, j)
    case None =>
    case Some((p1, p2)) =>
      SplitAtIn(tris, p1, p2, off + j, n);
  }

  /** The orphan loops keep every id below the number of points and only
      ever add triangles. */
  lemma {:induction false} OrphansOfRingIn(counts: seq<nat>, off: nat, len: nat, m: nat, tris: seq<Triangle>, n: nat)
    requires off + len <= |counts| && m <= len && TrianglesIn(tris, n) && off + len <= n
    ensures TrianglesIn(OrphansOfRing(counts, off, len, m, tris), n)
    ensures |OrphansOfRing(counts, off, len, m, tris)| >= |tris|
  {
    if m > 0 {
      var prev := OrphansOfRing(counts, off, len, m - 1, tris);
      OrphansOfRingIn(counts, off, len, m - 1, tris, n);
      OrphanStep(counts, off, len, m - 1, prev, n);
      assert OrphansOfRing(counts, off, len, m, tris) == Orphan(counts, off, len, m - 1, prev);
    }
  }

  lemma {:induction false} OrphansOfRingsIn(counts: seq<nat>, lens: seq<nat>, m: nat, tris: seq<Triangle>)
    requires m <= |lens| && Total(lens) <= |counts| && TrianglesIn(tris, Total(lens))
    ensures TrianglesIn(OrphansOfRings(counts, lens, m, tris), Total(lens))
    ensures |OrphansOfRings(counts, lens, m, tris)| >= |tris|
  {
    if m > 0 {
      OrphansOfRingsIn(counts, lens, m - 1, tris);
      TotalMono(lens, m - 1);
      OrphansOfRingIn(counts, Total(lens[..m - 1]), lens[m - 1], lens[m - 1],
                      OrphansOfRings(counts, lens, m - 1, tris), Total(lens));
    }
  }

  /** splitTrianglesAddMissingVertices keeps the triangulation over the
      shape's points and never loses a triangle. */
  lemma AddMissingVerticesIn(tris: seq<Triangle>, lens: seq<nat>)
    requires TrianglesIn(tris, Total(lens))
    ensures TrianglesIn(AddMissingVertices(tris, lens), Total(lens))
    ensures |AddMissingVertices(tris, lens)| >= |tris|
  {
    OrphansOfRingsIn(Counts(tris, Total(lens)), lens, |lens|, tris);
  }

  /** A vertex used by a triangle is never an orphan: triangulations that
      already use every vertex come back unchanged. */
  lemma {:induction false} NoOrphansUnchanged(tris: seq<Triangle>, lens: seq<nat>, m: nat)
    requires m <= |lens| && TrianglesIn(tris, Total(lens))
    requires forall v :: 0 <= v < Total(lens) ==> Uses(tris, v) > 0
    ensures OrphansOfRings(Counts(tris, Total(lens)), lens, m, tris) == tris
  {
    if m > 0 {
      NoOrphansUnchanged(tris, lens, m - 1);
      TotalMono(lens, m - 1);
      NoOrphansOfRing(Counts(tris, Total(lens)), Total(lens[..m - 1]), lens[m - 1], lens[m - 1], tris);
    }
  }

  lemma {:induction false} NoOrphansOfRing(counts: seq<nat>, off: nat, len: nat, m: nat, tris: seq<Triangle>)
    requires off + len <= |counts| && m <= len
    requires forall v :: off <= v < off + len ==> counts[v] > 0
    ensures OrphansOfRing(counts, off, len, m, tris) == tris
  {
    if m > 0 {
      NoOrphansOfRing(counts, off, len, m - 1, tris);
    }
  }

  /** An orphan with neighbours gets into the triangulation exactly when
      some triangle holds both neighbours: it is then a corner of the
      pushed triangle. */
  lemma OrphanPlaced(counts: seq<nat>, off: nat, len: nat, j: nat, tris: seq<Triangle>)
    requires off + len <= |counts| && j < len && OrphanNeighbours(counts, off, len, j).Some?
    ensures var (p1, p2) := OrphanNeighbours(counts, off, len, j).value;
      var r := Orphan(counts, off, len, j, tris);
      (exists k :: 0 <= k < |tris| && p1 in tris[k] && p2 in tris[k]) <==>
      (|r| == |tris| + 1 && off + j in r[|tris|])
    ensures var (p1, p2) := OrphanNeighbours(counts, off, len, j).value;
      !(exists k :: 0 <= k < |tris| && p1 in tris[k] && p2 in tris[k]) ==> Orphan(counts, off, len, j, tris) == tris
  {
    var (p1, p2) := OrphanNeighbours(counts, off, len, j).value;
    match SplitAt(tris, p1, p2, off + j)
    case None =>
    case Some(s) =>
      var t := tris[s.before];
      assert t[IndexOf(t, p2) := off + j][IndexOf(t, p2)] == off + j;
  }

  /** A resolved orphan changes exactly one triangle and appends one: the
      first triangle holding both neighbours gets the orphan in place of
      the previous neighbour, a copy with the orphan in place of the next
      neighbour is pushed, and every other triangle is kept. */
  lemma OrphanResolved(counts: seq<nat>, off: nat, len: nat, j: nat, tris: seq<Triangle>)
    requires off + len <= |counts| && j < len && OrphanNeighbours(counts, off, len, j).Some?
    requires var (p1, p2) := OrphanNeighbours(counts, off, len, j).value;
      exists k :: 0 <= k < |tris| && p1 in tris[k] && p2 in tris[k]
    ensures var (p1, p2) := OrphanNeighbours(counts, off, len, j).value;
      var r := Orphan(counts, off, len, j, tris);
      exists b :: 0 <= b < |tris| && p1 in tris[b] && p2 in tris[b] &&
        (forall k :: 0 <= k < b ==> !(p1 in tris[k] && p2 in tris[k])) &&
        |r| == |tris| + 1 &&
        r[b] == tris[b][IndexOf(tris[b], p1) := off + j] &&
        r[|tris|] == tris[b][IndexOf(tris[b], p2) := off + j] &&
        forall k :: 0 <= k < |tris| && k != b ==> r[k] == tris[k]
  {
    var (p1, p2) := OrphanNeighbours(counts, off, len, j).value;
    var s := SplitAt(tris, p1, p2, off + j).value;
    assert Orphan(counts, off, len, j, tris) == ApplySplit(tris, s);
  }

  /** The lengths of the rings of a shape. */
  function Lengths(rings: seq<seq<Point>>): (lens: seq<nat>)
    ensures |lens| == |rings| && forall i :: 0 <= i < |rings| ==> lens[i] == |rings[i]|
  {
    if |rings| == 0 then [] else Lengths(rings[..|rings| - 1]) + [|rings[|rings| - 1]|]
  }

  /** The two findNeighborNotNull calls for vertex j, made only for an
      unused vertex. */
  method FindOrphanNeighbours(counts: seq<nat>, off: nat, len: nat, j: nat) returns (nb: Option<(nat, nat)>)
    requires off + len <= |counts| && j < len
    ensures nb == OrphanNeighbours(counts, off, len, j)
  {
    nb := None;
    if counts[off + j] == 0 {
      var sub := counts[off..off + len];
      var pred := FindNeighborNotNull(sub, j, -1);
      var next := FindNeighborNotNull(sub, j, 1);
      if pred.Some? && next.Some? {
        nb := Some((off + pred.value, off + next.value));
      }
    }
  }

  /** The body of the orphan loop for vertex j. */
  method PlaceOrphan(counts: seq<nat>, off: nat, len: nat, j: nat, tris: seq<Triangle>) returns (r: seq<Triangle>)
    requires off + len <= |counts| && j < len
    ensures r == Orphan(counts, off, len, j, tris)
  {
    r := tris;
    var nb := FindOrphanNeighbours(counts, off, len, j);
    if nb.Some? {
      var t := FindAndSplitTriangle(r, nb.value.0, nb.value.1, off + j);
      if t.Some? {
        r := r[t.value.before := t.value.after[0]] + [t.value.after[1]];
      }
    }
  }

  /** The orphan loop over one ring (the j loop). */
  method AddMissingVerticesOfRing(counts: seq<nat>, off: nat, len: nat, tris: seq<Triangle>) returns (r: seq<Triangle>)
    requires off + len <= |counts|
    ensures r == OrphansOfRing(counts, off, len, len, tris)
  {
    r := tris;
    var j := 0;
    while j != len
      invariant 0 <= j <= len && r == OrphansOfRing(counts, off, len, j, tris)
    {
      r := PlaceOrphan(counts, off, len, j, r);
      j := j + 1;
    }
  }

  /** splitTrianglesAddMissingVertices: ids of the triangles run over the
      contour's points, then each hole's. */
  method SplitTrianglesAddMissingVertices(tris: seq<Triangle>, contour: seq<Point>, holes: seq<seq<Point>>)
    returns (r: seq<Triangle>)
    requires TrianglesIn(tris, Total(Lengths([contour] + holes)))
    ensures r == AddMissingVertices(tris, Lengths([contour] + holes))
  {
    var rings := [contour] + holes;
    ghost var lens := Lengths(rings);
    var firsts: seq<nat> := [];
    var nb := 0;
    var i := 0;
    while i != |rings|
      invariant 0 <= i <= |rings| && |firsts| == i && nb == Total(lens[..i])
      invariant forall k :: 0 <= k < i ==> firsts[k] == Total(lens[..k])
    {
      assert lens[..i + 1][..i] == lens[..i];
      firsts := firsts + [nb];
      nb := nb + |rings[i]|;
      i := i + 1;
    }
    assert lens[..|rings|] == lens;
    var counts := CountTriangles(tris, nb);
    r := tris;
    i := 0;
    while i != |rings|
      invariant 0 <= i <= |rings| && r == OrphansOfRings(counts, lens, i, tris)
    {
      TotalMono(lens, i);
      r := AddMissingVerticesOfRing(counts, firsts[i], |rings[i]|, r);
      i := i + 1;
    }
  }

  /** The counts are taken once, before any orphan is placed: for a single
      five-point ring triangulated as (0, 3, 4), vertex 1 goes in, but
      vertex 2 still sees vertex 1 as unused, looks for a triangle holding
      0 and 3, finds none, and stays out. */
  lemma StaleCountsLeaveOrphan()
    ensures AddMissingVertices([[0, 3, 4]], [5]) == [[1, 3, 4], [0, 1, 4]]
    ensures Uses(AddMissingVertices([[0, 3, 4]], [5]), 2) == 0
  {
    StaleResult();
    StaleUses();
  }

  lemma StaleResult()
    ensures AddMissingVertices([[0, 3, 4]], [5]) == [[1, 3, 4], [0, 1, 4]]
  {
    var tris: seq<Triangle> := [[0, 3, 4]];
    StaleCounts();
    StaleRing();
    assert [5][..0] == [];
    assert Total([5]) == 5 && Total([]) == 0;
    assert OrphansOfRings([1, 0, 0, 1, 1], [5], 0, tris) == tris;
  }

  lemma StaleUses()
    ensures Uses([[1, 3, 4], [0, 1, 4]], 2) == 0
  {
    var r1: seq<Triangle> := [[1, 3, 4], [0, 1, 4]];
    assert Uses(r1[..1], 2) == 0;
  }

  /** The orphan loop over the one ring places vertex 1 and leaves 2 out. */
  lemma StaleRing()
    ensures OrphansOfRing([1, 0, 0, 1, 1], 0, 5, 5, [[0, 3, 4]]) == [[1, 3, 4], [0, 1, 4]]
  {
    var counts: seq<nat> := [1, 0, 0, 1, 1];
    var tris: seq<Triangle> := [[0, 3, 4]];
    var r1: seq<Triangle> := [[1, 3, 4], [0, 1, 4]];
    StaleFirstOrphan();
    StaleLaterOrphans();
    assert OrphansOfRing(counts, 0, 5, 1, tris) == tris;
    assert OrphansOfRing(counts, 0, 5, 2, tris) == r1;
    assert OrphansOfRing(counts, 0, 5, 3, tris) == r1;
    assert OrphansOfRing(counts, 0, 5, 4, tris) == r1;
  }

  lemma StaleCounts()
    ensures Counts([[0, 3, 4]], 5) == [1, 0, 0, 1, 1]
  {
  }

  /** Vertices 1 and 2 both look for a triangle holding 0 and 3. */
  lemma StaleNeighbours()
    ensures OrphanNeighbours([1, 0, 0, 1, 1], 0, 5, 1) == Some((0, 3))
    ensures OrphanNeighbours([1, 0, 0, 1, 1], 0, 5, 2) == Some((0, 3))
  {
    var counts: seq<nat> := [1, 0, 0, 1, 1];
    assert counts[0..5] == counts;
    assert NeighborNotNull(counts, 1, -1) == Some(0);
    assert Walk(5, 1, 1, 1) == 2 && Walk(5, 1, 1, 2) == 3;
    assert NeighborFrom(counts, 1, 1, 2) == Some(3);
    assert NeighborNotNull(counts, 1, 1) == Some(3);
    assert Walk(5, 2, -1, 1) == 1 && Walk(5, 2, -1, 2) == 0;
    assert NeighborFrom(counts, 2, -1, 2) == Some(0);
    assert NeighborNotNull(counts, 2, -1) == Some(0);
    assert NeighborNotNull(counts, 2, 1) == Some(3);
  }

  lemma StaleFirstOrphan()
    ensures Orphan([1, 0, 0, 1, 1], 0, 5, 0, [[0, 3, 4]]) == [[0, 3, 4]]
    ensures Orphan([1, 0, 0, 1, 1], 0, 5, 1, [[0, 3, 4]]) == [[1, 3, 4], [0, 1, 4]]
  {
    var tris: seq<Triangle> := [[0, 3, 4]];
    var r1: seq<Triangle> := [[1, 3, 4], [0, 1, 4]];
    StaleNeighbours();
    StaleSplit();
    assert Orphan([1, 0, 0, 1, 1], 0, 5, 1, tris) == ApplySplit(tris, Split(0, r1));
  }

  /** The split of triangle (0, 3, 4) on 0 and 3 for vertex 1. */
  lemma StaleSplit()
    ensures SplitAt([[0, 3, 4]], 0, 3, 1) == Some(Split(0, [[1, 3, 4], [0, 1, 4]]))
    ensures ApplySplit([[0, 3, 4]], Split(0, [[1, 3, 4], [0, 1, 4]])) == [[1, 3, 4], [0, 1, 4]]
  {
    var tris: seq<Triangle> := [[0, 3, 4]];
    var r1: seq<Triangle> := [[1, 3, 4], [0, 1, 4]];
    assert IndexOf([0, 3, 4], 0) == 0 && IndexOf([0, 3, 4], 3) == 1;
    assert FirstWithBoth(tris, 0, 3, 0) == Some(0);
    assert tris[0][0 := 1] == r1[0] && tris[0][1 := 1] == r1[1];
  }

  lemma StaleLaterOrphans()
    ensures Orphan([1, 0, 0, 1, 1], 0, 5, 2, [[1, 3, 4], [0, 1, 4]]) == [[1, 3, 4], [0, 1, 4]]
    ensures Orphan([1, 0, 0, 1, 1], 0, 5, 3, [[1, 3, 4], [0, 1, 4]]) == [[1, 3, 4], [0, 1, 4]]
    ensures Orphan([1, 0, 0, 1, 1], 0, 5, 4, [[1, 3, 4], [0, 1, 4]]) == [[1, 3, 4], [0, 1, 4]]
  {
    var r1: seq<Triangle> := [[1, 3, 4], [0, 1, 4]];
    StaleNeighbours();
    assert 0 !in r1[0] && 3 !in r1[1];
    assert SplitAt(r1, 0, 3, 2) == None;
  }

  // ---------------------------------------------------------------------
  // reintroduceMissingEdges

  /** A ring edge of the shape: flat ids of its two ends and their points. */
  datatype RingEdge = RingEdge(id0: nat, id1: nat, c0: Point, c1: Point)

  /** A triangle side as buildEdge makes it: ids and points of its ends,
      the index of its triangle and the triangle. The ext field that
      findBestMatchingEdge writes into the best side is not kept: it is
      read only right after it is written. */
  datatype Side = Side(id0: nat, id1: nat, c0: Point, c1: Point, trID: nat, tr: Triangle)

  /** The points of the contour followed by those of each hole: the flat
      list the ids index. */
  function Flat(rings: seq<seq<Point>>): seq<Point> {
    if |rings| == 0 then [] else Flat(rings[..|rings| - 1]) + rings[|rings| - 1]
  }

  lemma {:induction false} FlatLength(rings: seq<seq<Point>>)
    ensures |Flat(rings)| == Total(Lengths(rings))
  {
    if |rings| > 0 {
      FlatLength(rings[..|rings| - 1]);
      assert Lengths(rings[..|rings| - 1]) == Lengths(rings)[..|rings| - 1];
    }
  }

  /** Point j of ring m sits at the offset of ring m plus j. */
  lemma {:induction false} FlatAt(rings: seq<seq<Point>>, m: nat, j: nat)
    requires m < |rings| && j < |rings[m]|
    ensures |Flat(rings[..m])| + j < |Flat(rings)|
    ensures Flat(rings)[|Flat(rings[..m])| + j] == rings[m][j]
    decreases |rings|
  {
    var n := |rings| - 1;
    if m < n {
      assert rings[..n][..m] == rings[..m];
      FlatAt(rings[..n], m, j);
    } else {
      assert rings[..n] == rings[..m];
    }
  }

  /** Ids and points of a ring edge match the flat list. */
  predicate Fits(e: RingEdge, vs: seq<Point>) {
    e.id0 < |vs| && e.id1 < |vs| && vs[e.id0] == e.c0 && vs[e.id1] == e.c1
  }

  /** The edges of one ring whose first point has flat id nb: from each
      point to the next, the last back to the first; none for a ring of
      fewer than two points. */
  function EdgesOfRing(ring: seq<Point>, nb: nat): (r: seq<RingEdge>)
    ensures |r| == if |ring| > 1 then |ring| else 0
  {
    if |ring| > 1 then
      seq(|ring|, j requires 0 <= j < |ring| =>
        RingEdge(nb + j, nb + (j + 1) % |ring|, ring[j], ring[(j + 1) % |ring|]))
    else []
  }

  /** The contour-edge list of reintroduceMissingEdges. */
  function RingEdges(rings: seq<seq<Point>>): seq<RingEdge> {
    if |rings| == 0 then []
    else RingEdges(rings[..|rings| - 1]) + EdgesOfRing(rings[|rings| - 1], |Flat(rings[..|rings| - 1])|)
  }

  /** Every ring edge's ids locate its points in the flat list. */
  lemma {:induction false} RingEdgesFit(rings: seq<seq<Point>>)
    ensures forall k :: 0 <= k < |RingEdges(rings)| ==> Fits(RingEdges(rings)[k], Flat(rings))
  {
    if |rings| > 0 {
      var n := |rings| - 1;
      RingEdgesFit(rings[..n]);
      var before := RingEdges(rings[..n]);
      assert Flat(rings) == Flat(rings[..n]) + rings[n];
      forall k | 0 <= k < |RingEdges(rings)| ensures Fits(RingEdges(rings)[k], Flat(rings)) {
        if k >= |before| {
          var j := k - |before|;
          FlatAt(rings, n, j);
          FlatAt(rings, n, (j + 1) % |rings[n]|);
        }
      }
    }
  }

  /** edgesContains: some side joins the edge's two ids, in either order. */
  predicate HasSide(sides: seq<Side>, e: RingEdge) {
    exists t :: 0 <= t < |sides| &&
      ((sides[t].id0 == e.id0 && sides[t].id1 == e.id1) || (sides[t].id1 == e.id0 && sides[t].id0 == e.id1))
  }

  /** edgesContains, the loop. */
  method EdgesContains(sides: seq<Side>, e: RingEdge) returns (b: bool)
    ensures b == HasSide(sides, e)
  {
    var t := 0;
    while t != |sides|
      invariant 0 <= t <= |sides|
      invariant forall u :: 0 <= u < t ==>
        !((sides[u].id0 == e.id0 && sides[u].id1 == e.id1) || (sides[u].id1 == e.id0 && sides[u].id0 == e.id1))
    {
      if (sides[t].id0 == e.id0 && sides[t].id1 == e.id1) || (sides[t].id1 == e.id0 && sides[t].id0 == e.id1) {
        return true;
      }
      t := t + 1;
    }
    return false;
  }

  /** buildEdge: side a-b of triangle t. */
  function BuildEdge(tris: seq<Triangle>, vs: seq<Point>, t: nat, a: nat, b: nat): Side
    requires TrianglesIn(tris, |vs|) && t < |tris| && a < 3 && b < 3
  {
    Side(tris[t][a], tris[t][b], vs[tris[t][a]], vs[tris[t][b]], t, tris[t])
  }

  /** Where side i of triangle t sits in the tEdges list. */
  function Pos(t: nat, i: nat): nat {
    3 * t + i
  }

  /** The tEdges list: side i of triangle t, from corner i to corner
      i + 1 mod 3, at position 3 t + i. */
  function Sides(tris: seq<Triangle>, vs: seq<Point>): (r: seq<Side>)
    requires TrianglesIn(tris, |vs|)
    ensures |r| == 3 * |tris|
    ensures forall t, i :: 0 <= t < |tris| && 0 <= i < 3 ==> r[Pos(t, i)] == BuildEdge(tris, vs, t, i, (i + 1) % 3)
    decreases |tris|
  {
    if |tris| == 0 then []
    else
      var n := |tris| - 1;
      TrianglesPrefix(tris, n, |vs|);
      Sides(tris[..n], vs) + SidesOfTriangle(tris, vs, n)
  }

  /** Appending triangle i of a valid list keeps a list valid. */
  lemma TrianglesSnoc(prev: seq<Triangle>, after: seq<Triangle>, i: nat, m: nat)
    requires TrianglesIn(prev, m) && TrianglesIn(after, m) && i < |after|
    ensures TrianglesIn(prev + [after[i]], m) && (prev + [after[i]])[..|prev|] == prev
    ensures i == 0 || after[1..i + 1] == after[1..i] + [after[i]]
  {
    var r := prev + [after[i]];
    assert forall t :: 0 <= t < |prev| ==> r[t] == prev[t];
    assert r[|prev|] == after[i];
    assert r[..|prev|] == prev;
    if 0 < i {
      assert after[1..i + 1] == after[1..i] + [after[i]];
    }
  }

  /** A prefix of a triangulation names the same vertices. */
  lemma TrianglesPrefix(tris: seq<Triangle>, n: nat, m: nat)
    requires TrianglesIn(tris, m) && n <= |tris|
    ensures TrianglesIn(tris[..n], m)
  {
    assert forall t :: 0 <= t < n ==> tris[..n][t] == tris[t];
  }

  /** The sides of the first t + 1 triangles: those of the first t, then
      the three of triangle t. */
  lemma SidesStep(tris: seq<Triangle>, vs: seq<Point>, t: nat)
    requires TrianglesIn(tris, |vs|) && t < |tris|
    ensures TrianglesIn(tris[..t], |vs|) && TrianglesIn(tris[..t + 1], |vs|)
    ensures Sides(tris[..t + 1], vs) == Sides(tris[..t], vs) + SidesOfTriangle(tris, vs, t)
  {
    TrianglesPrefix(tris, t, |vs|);
    TrianglesPrefix(tris, t + 1, |vs|);
    var p := tris[..t + 1];
    assert p[..t] == tris[..t];
    SameTriangleSides(p, tris, vs, t);
    SidesUnfold(p, vs, t);
  }

  /** The sides of triangle t depend only on that triangle. */
  lemma SameTriangleSides(a: seq<Triangle>, b: seq<Triangle>, vs: seq<Point>, t: nat)
    requires TrianglesIn(a, |vs|) && TrianglesIn(b, |vs|) && t < |a| && t < |b| && a[t] == b[t]
    ensures SidesOfTriangle(a, vs, t) == SidesOfTriangle(b, vs, t)
  {
    var x, y := SidesOfTriangle(a, vs, t), SidesOfTriangle(b, vs, t);
    forall i | 0 <= i < 3 ensures x[i] == y[i] {
      assert x[i] == BuildEdge(a, vs, t, i, (i + 1) % 3);
      assert y[i] == BuildEdge(b, vs, t, i, (i + 1) % 3);
    }
  }

  lemma SidesUnfold(tris: seq<Triangle>, vs: seq<Point>, n: nat)
    requires TrianglesIn(tris, |vs|) && n + 1 == |tris|
    ensures TrianglesIn(tris[..n], |vs|)
    ensures Sides(tris, vs) == Sides(tris[..n], vs) + SidesOfTriangle(tris, vs, n)
  {
    TrianglesPrefix(tris, n, |vs|);
  }

  /** Sides that belong to the triangulation: their ends are corners of
      their triangle, which is the triangle at trID. */
  predicate SidesOf(sides: seq<Side>, tris: seq<Triangle>) {
    forall k :: 0 <= k < |sides| ==>
      sides[k].trID < |tris| && sides[k].tr == tris[sides[k].trID] &&
      sides[k].id0 in sides[k].tr && sides[k].id1 in sides[k].tr
  }

  lemma SidesAreSidesOf(tris: seq<Triangle>, vs: seq<Point>)
    requires TrianglesIn(tris, |vs|)
    ensures SidesOf(Sides(tris, vs), tris)
  {
    var r := Sides(tris, vs);
    forall k | 0 <= k < |r|
      ensures r[k].trID < |tris| && r[k].tr == tris[r[k].trID] && r[k].id0 in r[k].tr && r[k].id1 in r[k].tr
    {
      assert k == Pos(k / 3, k % 3);
      assert r[k] == BuildEdge(tris, vs, k / 3, k % 3, (k % 3 + 1) % 3);
    }
  }

  /** The ring edges no side has: the filter before the repair loop. */
  function Missing(edges: seq<RingEdge>, sides: seq<Side>): (r: seq<RingEdge>)
    ensures forall k :: 0 <= k < |r| ==> r[k] in edges && !HasSide(sides, r[k])
    ensures forall e :: e in edges && !HasSide(sides, e) ==> e in r
  {
    if |edges| == 0 then []
    else
      var last := edges[|edges| - 1];
      var rest := Missing(edges[..|edges| - 1], sides);
      assert forall e :: e in edges ==> e in edges[..|edges| - 1] || e == last;
      if HasSide(sides, last) then rest else rest + [last]
  }

  /** Every side's ends are corners of its triangle. */
  predicate Ends(sides: seq<Side>) {
    forall k :: 0 <= k < |sides| ==> sides[k].id0 in sides[k].tr && sides[k].id1 in sides[k].tr
  }

  /** The epsilon findBestMatchingEdge passes to distanceSqrdPointSegment. */
  const Eps: real := 0.000001

  /** The ext flags: whether each end of the target is an end of side e. */
  function Ext(e: Side, target: RingEdge): (bool, bool) {
    (target.id0 == e.id0 || target.id0 == e.id1, target.id1 == e.id0 || target.id1 == e.id1)
  }

  /** The distance findBestMatchingEdge gives side e: for each end of the
      target, 0 when it is an end of e, else its squared distance to the
      segment; None when either distance is -1 (the end does not project
      onto the side, or the side is too short). */
  function Dist(e: Side, target: RingEdge): Option<real> {
    var (e1, e2) := Ext(e, target);
    var d1 := if e1 then 0.0 else DistanceSqrdPointSegment(target.c0, e.c0, e.c1, Eps);
    if d1 < 0.0 then None
    else
      var d2 := if e2 then 0.0 else DistanceSqrdPointSegment(target.c1, e.c0, e.c1, Eps);
      if d2 < 0.0 then None else Some(d1 + d2)
  }

  /** A side with a distance is one where both target ends are shared or
      at a non-negative distance from it. */
  lemma DistSpec(e: Side, target: RingEdge)
    ensures Dist(e, target).Some? ==> Dist(e, target).value >= 0.0
    ensures Dist(e, target).None? <==>
      (!Ext(e, target).0 && DistanceSqrdPointSegment(target.c0, e.c0, e.c1, Eps) == -1.0) ||
      (!Ext(e, target).1 && DistanceSqrdPointSegment(target.c1, e.c0, e.c1, Eps) == -1.0)
  {
  }

  /** The side findBestMatchingEdge holds after the first n sides: the
      first one with the smallest distance. */
  function BestUpTo(sides: seq<Side>, target: RingEdge, n: nat): (r: Option<nat>)
    requires n <= |sides|
    ensures r.None? <==> forall j :: 0 <= j < n ==> Dist(sides[j], target).None?
    ensures r.Some? ==> r.value < n && Dist(sides[r.value], target).Some?
    ensures r.Some? ==> forall j :: 0 <= j < r.value && Dist(sides[j], target).Some? ==>
      Dist(sides[j], target).value > Dist(sides[r.value], target).value
    ensures r.Some? ==> forall j :: r.value < j < n && Dist(sides[j], target).Some? ==>
      Dist(sides[j], target).value >= Dist(sides[r.value], target).value
  {
    if n == 0 then None
    else
      var p := BestUpTo(sides, target, n - 1);
      var d := Dist(sides[n - 1], target);
      if d.Some? && (p.None? || Dist(sides[p.value], target).value > d.value) then Some(n - 1) else p
  }

  /** The split findBestMatchingEdge makes of the best side b = A-B of its
      triangle (A, B, C), for the missing edge N1-N2. When the target
      shares an end with b, both halves get the other end of the target
      in place of A and of B. Otherwise N1 is the target end nearer to A,
      and the intended split is (A, N1, C), (N1, N2, C), (N2, B, C); as
      written, the third store goes to the second triangle instead of the
      third, which gives (N2, N2, C) and leaves the third a copy of b's
      triangle. */
  function SplitOf(b: Side, target: RingEdge, intended: bool): (s: Split)
    requires b.id0 in b.tr && b.id1 in b.tr
    ensures s.before == b.trID && 2 <= |s.after| <= 3
    ensures forall i, c :: 0 <= i < |s.after| && 0 <= c < 3 ==>
      s.after[i][c] in b.tr || s.after[i][c] == target.id0 || s.after[i][c] == target.id1
  {
    var (e1, e2) := Ext(b, target);
    var idp1 := IndexOf(b.tr, b.id0);
    var idp2 := IndexOf(b.tr, b.id1);
    if e1 then Split(b.trID, [b.tr[idp1 := target.id1], b.tr[idp2 := target.id1]])
    else if e2 then Split(b.trID, [b.tr[idp1 := target.id0], b.tr[idp2 := target.id0]])
    else
      var goodOrder := DistanceSqrd(b.c0, target.c0) < DistanceSqrd(b.c0, target.c1);
      var n1 := if goodOrder then target.id0 else target.id1;
      var n2 := if goodOrder then target.id1 else target.id0;
      if intended then Split(b.trID, [b.tr[idp2 := n1], b.tr[idp1 := n1][idp2 := n2], b.tr[idp1 := n2]])
      else Split(b.trID, [b.tr[idp2 := n1], b.tr[idp1 := n1][idp2 := n2][idp1 := n2], b.tr])
  }

  /** What findBestMatchingEdge returns. */
  function BestSplit(sides: seq<Side>, target: RingEdge, intended: bool): (r: Option<Split>)
    requires Ends(sides)
    ensures r.None? <==> forall j :: 0 <= j < |sides| ==> Dist(sides[j], target).None?
    ensures r.Some? ==> exists k :: 0 <= k < |sides| && r.value == SplitOf(sides[k], target, intended)
  {
    match BestUpTo(sides, target, |sides|)
    case None => None
    case Some(k) => Some(SplitOf(sides[k], target, intended))
  }

  /** The scan of findBestMatchingEdge: the nearest side, and the ext
      flags written into it. */
  method NearestSide(sides: seq<Side>, target: RingEdge) returns (best: Option<nat>, bestExt: (bool, bool))
    ensures best == BestUpTo(sides, target, |sides|)
    ensures best.Some? ==> bestExt == Ext(sides[best.value], target)
  {
    best := None;
    var bestDist: real := -1.0;
    bestExt := (false, false);
    var e := 0;
    while e != |sides|
      invariant 0 <= e <= |sides| && best == BestUpTo(sides, target, e)
      invariant best.Some? ==> bestDist == Dist(sides[best.value], target).value
      invariant best.Some? ==> bestExt == Ext(sides[best.value], target)
    {
      var d, ok, ext := SideDistance(sides[e], target);
      BestUpToNext(sides, target, e);
      if ok && (best.None? || bestDist > d) {
        best := Some(e);
        bestExt := ext;
        bestDist := d;
      }
      e := e + 1;
    }
  }

  /** The distance the edge loop computes for one side, with its ext flags. */
  method SideDistance(side: Side, target: RingEdge) returns (d: real, ok: bool, ext: (bool, bool))
    ensures ok <==> Dist(side, target).Some?
    ensures ok ==> d == Dist(side, target).value
    ensures ext == Ext(side, target)
  {
    var a := side.c0;
    var b := side.c1;
    var d1: real;
    var d2: real := -1.0;
    var e1 := false;
    var e2 := false;
    if target.id0 == side.id0 || target.id0 == side.id1 {
      d1 := 0.0;
      e1 := true;
    } else {
      d1 := DistanceSqrdPointSegment(target.c0, a, b, Eps);
    }
    if target.id1 == side.id0 || target.id1 == side.id1 {
      e2 := true;
    }
    ok := false;
    d := -1.0;
    if d1 >= 0.0 {
      if e2 {
        d2 := 0.0;
      } else {
        d2 := DistanceSqrdPointSegment(target.c1, a, b, Eps);
      }
      if d2 >= 0.0 {
        d := d1 + d2;
        ok := true;
      }
    }
    ext := (e1, e2);
  }

  /** One more side for BestUpTo. */
  lemma BestUpToNext(sides: seq<Side>, target: RingEdge, e: nat)
    requires e < |sides|
    ensures BestUpTo(sides, target, e + 1) ==
      var p := BestUpTo(sides, target, e);
      var d := Dist(sides[e], target);
      if d.Some? && (p.None? || Dist(sides[p.value], target).value > d.value) then Some(e) else p
  {
  }

  /** The split of the best side, from its ext flags. With intended set,
      the third triangle of a three-way split gets N2 in place of A. */
  method SplitBest(bs: Side, ext: (bool, bool), target: RingEdge, intended: bool) returns (s: Split)
    requires bs.id0 in bs.tr && bs.id1 in bs.tr && ext == Ext(bs, target)
    ensures s == SplitOf(bs, target, intended)
  {
    var idp1 := IndexOf(bs.tr, bs.id0);
    var idp2 := IndexOf(bs.tr, bs.id1);
    if ext.0 {
      var t1 := bs.tr[idp1 := target.id1];
      var t2 := bs.tr[idp2 := target.id1];
      s := Split(bs.trID, [t1, t2]);
    } else if ext.1 {
      var t1 := bs.tr[idp1 := target.id0];
      var t2 := bs.tr[idp2 := target.id0];
      s := Split(bs.trID, [t1, t2]);
    } else {
      var t1 := bs.tr;
      var t2 := bs.tr;
      var t3 := bs.tr;
      var goodOrder := DistanceSqrd(bs.c0, target.c0) < DistanceSqrd(bs.c0, target.c1);
      var idN1 := if goodOrder then target.id0 else target.id1;
      var idN2 := if goodOrder then target.id1 else target.id0;
      t1 := t1[idp2 := idN1];
      t2 := t2[idp1 := idN1];
      t2 := t2[idp2 := idN2];
      if intended {
        t3 := t3[idp1 := idN2];
      } else {
        t2 := t2[idp1 := idN2];
      }
      s := Split(bs.trID, [t1, t2, t3]);
    }
  }

  /** findBestMatchingEdge. */
  method FindBestMatchingEdge(sides: seq<Side>, target: RingEdge, intended: bool) returns (r: Option<Split>)
    requires Ends(sides)
    ensures r == BestSplit(sides, target, intended)
  {
    var best, ext := NearestSide(sides, target);
    if best.None? {
      return None;
    }
    var s := SplitBest(sides[best.value], ext, target, intended);
    return Some(s);
  }

  /** Applying a split in the edge loop: the triangle is overwritten by
      after[0]; the intended loop pushes the rest of after, the loop as
      written pushes after[1] only, since its inner loop reuses and
      leaves the counter at 3. */
  function ApplyRepair(tris: seq<Triangle>, s: Split, intended: bool): (r: seq<Triangle>)
    requires s.before < |tris| && |s.after| >= 2
    ensures |r| == |tris| + (if intended then |s.after| - 1 else 1)
    ensures r[s.before] == s.after[0] && forall k :: 0 <= k < |tris| && k != s.before ==> r[k] == tris[k]
    ensures r[|tris|..] == if intended then s.after[1..] else [s.after[1]]
  {
    if intended then tris[s.before := s.after[0]] + s.after[1..]
    else tris[s.before := s.after[0]] + [s.after[1]]
  }

  /** One round of the edge loop for the missing edge target. */
  function RepairEdge(tris: seq<Triangle>, vs: seq<Point>, target: RingEdge, intended: bool): (r: seq<Triangle>)
    requires TrianglesIn(tris, |vs|) && target.id0 < |vs| && target.id1 < |vs|
    ensures TrianglesIn(r, |vs|) && |r| >= |tris|
  {
    var sides := Sides(tris, vs);
    SidesAreSidesOf(tris, vs);
    match BestSplit(sides, target, intended)
    case None => tris
    case Some(s) =>
      var k :| 0 <= k < |sides| && s == SplitOf(sides[k], target, intended);
      SplitFits(tris, vs, sides, k, target, intended);
      ApplyRepairIn(tris, s, intended, |vs|);
      ApplyRepair(tris, s, intended)
  }

  /** The split of a side of the triangulation replaces one of its
      triangles, by triangles over the same points. */
  lemma SplitFits(tris: seq<Triangle>, vs: seq<Point>, sides: seq<Side>, k: nat, target: RingEdge, intended: bool)
    requires TrianglesIn(tris, |vs|) && SidesOf(sides, tris) && k < |sides|
    requires target.id0 < |vs| && target.id1 < |vs|
    ensures SplitOf(sides[k], target, intended).before < |tris|
    ensures TrianglesIn(SplitOf(sides[k], target, intended).after, |vs|)
  {
    var b := sides[k];
    forall x | x in b.tr ensures x < |vs| {
      var c :| 0 <= c < 3 && b.tr[c] == x;
      assert tris[b.trID][c] == x;
    }
  }

  lemma ApplyRepairIn(tris: seq<Triangle>, s: Split, intended: bool, n: nat)
    requires s.before < |tris| && |s.after| >= 2 && TrianglesIn(tris, n) && TrianglesIn(s.after, n)
    ensures TrianglesIn(ApplyRepair(tris, s, intended), n) && |ApplyRepair(tris, s, intended)| > |tris|
  {
    var r := ApplyRepair(tris, s, intended);
    forall t, c | 0 <= t < |r| && 0 <= c < 3 ensures r[t][c] < n {
      if t == s.before {
      } else if t < |tris| {
        assert r[t] == tris[t];
      } else if intended {
        assert r[t] == s.after[t - |tris| + 1];
      } else {
        assert r[t] == s.after[1];
      }
    }
  }

  /** The edge loop over the first n missing edges. */
  function RepairEdges(tris: seq<Triangle>, vs: seq<Point>, targets: seq<RingEdge>, n: nat, intended: bool): (r: seq<Triangle>)
    requires n <= |targets| && TrianglesIn(tris, |vs|)
    requires forall k :: 0 <= k < |targets| ==> Fits(targets[k], vs)
    ensures TrianglesIn(r, |vs|) && |r| >= |tris|
  {
    if n == 0 then tris
    else RepairEdge(RepairEdges(tris, vs, targets, n - 1, intended), vs, targets[n - 1], intended)
  }

  /** One more missing edge for RepairEdges. */
  lemma RepairEdgesNext(tris: seq<Triangle>, vs: seq<Point>, targets: seq<RingEdge>, e: nat, intended: bool)
    requires e < |targets| && TrianglesIn(tris, |vs|)
    requires forall k :: 0 <= k < |targets| ==> Fits(targets[k], vs)
    ensures RepairEdges(tris, vs, targets, e + 1, intended) ==
      RepairEdge(RepairEdges(tris, vs, targets, e, intended), vs, targets[e], intended)
  {
  }

  /** The missing edges fit wherever all the ring edges do. */
  lemma MissingFit(edges: seq<RingEdge>, sides: seq<Side>, vs: seq<Point>)
    requires forall k :: 0 <= k < |edges| ==> Fits(edges[k], vs)
    ensures forall k :: 0 <= k < |Missing(edges, sides)| ==> Fits(Missing(edges, sides)[k], vs)
  {
    var miss := Missing(edges, sides);
    forall k | 0 <= k < |miss| ensures Fits(miss[k], vs) {
      assert miss[k] in edges;
      var i :| 0 <= i < |edges| && edges[i] == miss[k];
    }
  }

  /** What reintroduceMissingEdges returns for the triangles of a shape
      with the given rings. */
  function Reintroduced(tris: seq<Triangle>, rings: seq<seq<Point>>, intended: bool): (r: seq<Triangle>)
    requires TrianglesIn(tris, |Flat(rings)|)
    ensures TrianglesIn(r, |Flat(rings)|) && |r| >= |tris|
  {
    var vs := Flat(rings);
    RingEdgesFit(rings);
    var miss := Missing(RingEdges(rings), Sides(tris, vs));
    RepairEdges(tris, vs, miss, |miss|, intended)
  }

  // The loops of reintroduceMissingEdges.

  /** A list that agrees with the side list position by position is the
      side list. */
  lemma SidesByPos(rs: seq<Side>, tris: seq<Triangle>, vs: seq<Point>)
    requires TrianglesIn(tris, |vs|) && |rs| == 3 * |tris|
    requires forall t, i :: 0 <= t < |tris| && 0 <= i < 3 ==> rs[Pos(t, i)] == BuildEdge(tris, vs, t, i, (i + 1) % 3)
    ensures rs == Sides(tris, vs)
  {
    var sides := Sides(tris, vs);
    forall k | 0 <= k < |rs| ensures rs[k] == sides[k] {
      assert k == Pos(k / 3, k % 3);
    }
  }

  /** The edge-list loop: the edges of each ring with more than one point,
      numbering the points on from the previous rings. */
  method CollectRingEdges(rings: seq<seq<Point>>) returns (edges: seq<RingEdge>)
    ensures edges == RingEdges(rings)
  {
    edges := [];
    var nb := 0;
    var i := 0;
    while i != |rings|
      invariant 0 <= i <= |rings| && edges == RingEdges(rings[..i]) && nb == |Flat(rings[..i])|
    {
      assert rings[..i + 1][..i] == rings[..i];
      var ring := rings[i];
      edges := AddRingEdges(edges, ring, nb);
      nb := nb + |ring|;
      i := i + 1;
    }
    assert rings[..|rings|] == rings;
  }

  /** The inner loop of the contour-edge loop: the edges of one ring whose
      points start at flat id nb. */
  method AddRingEdges(edges0: seq<RingEdge>, ring: seq<Point>, nb: nat) returns (edges: seq<RingEdge>)
    ensures edges == edges0 + EdgesOfRing(ring, nb)
  {
    edges := edges0;
    if |ring| > 1 {
      ghost var here := EdgesOfRing(ring, nb);
      var j := 0;
      while j != |ring|
        invariant 0 <= j <= |ring| && edges == edges0 + here[..j]
      {
        EdgeOfRingAt(ring, nb, j);
        var k := (j + 1) % |ring|;
        TakeNext(here, j);
        AppendAssoc(edges0, here[..j], [here[j]]);
        edges := edges + [RingEdge(nb + j, nb + k, ring[j], ring[k])];
        j := j + 1;
      }
      assert here[..|ring|] == here;
    } else {
      assert EdgesOfRing(ring, nb) == [];
    }
  }

  /** The flat vertex list: the contour, then each hole appended. */
  method FlatVertices(contour: seq<Point>, holes: seq<seq<Point>>) returns (vs: seq<Point>)
    ensures vs == Flat([contour] + holes)
  {
    ghost var rings := [contour] + holes;
    vs := contour;
    assert rings[..1] == [contour] && Flat([contour]) == Flat([]) + contour;
    var j := 0;
    while j < |holes|
      invariant 0 <= j <= |holes| && vs == Flat(rings[..j + 1])
    {
      assert rings[..j + 2][..j + 1] == rings[..j + 1];
      vs := vs + holes[j];
      j := j + 1;
    }
    assert rings[..|holes| + 1] == rings;
  }

  /** The triangle-side loop: the three sides of each triangle in turn. */
  method BuildSides(tris: seq<Triangle>, vs: seq<Point>) returns (sides: seq<Side>)
    requires TrianglesIn(tris, |vs|)
    ensures sides == Sides(tris, vs)
  {
    sides := [];
    var t := 0;
    while t != |tris|
      invariant 0 <= t <= |tris| && TrianglesIn(tris[..t], |vs|) && sides == Sides(tris[..t], vs)
    {
      SidesStep(tris, vs, t);
      var i;
      sides, i := AddTriangleSides(tris, vs, t, sides);
      t := t + 1;
    }
    assert tris[..t] == tris;
  }

  lemma EdgeOfRingAt(ring: seq<Point>, nb: nat, j: nat)
    requires 1 < |ring| && j < |ring|
    ensures (j + 1) % |ring| == if j + 1 == |ring| then 0 else j + 1
    ensures EdgesOfRing(ring, nb)[j] == RingEdge(nb + j, nb + (j + 1) % |ring|, ring[j], ring[(j + 1) % |ring|])
  {
    if j + 1 == |ring| {
      ModSelf(|ring|);
    } else {
      ModBelow(j + 1, |ring|);
    }
  }

  lemma ModSelf(n: nat)
    requires n > 0
    ensures n % n == 0
  {
  }

  lemma ModBelow(a: nat, n: nat)
    requires a < n
    ensures a % n == a
  {
  }

  lemma AppendAssoc<T>(a: seq<T>, b: seq<T>, c: seq<T>)
    ensures (a + b) + c == a + (b + c)
  {
  }

  lemma TakeNext(s: seq<RingEdge>, j: nat)
    requires j < |s|
    ensures s[..j + 1] == s[..j] + [s[j]]
  {
  }

  /** The side loop for one triangle: its three sides, corner i to corner
      i + 1 mod 3; the counter ends at 3. */
  method AddTriangleSides(tris: seq<Triangle>, vs: seq<Point>, t: nat, sides0: seq<Side>)
    returns (sides: seq<Side>, i: nat)
    requires TrianglesIn(tris, |vs|) && t < |tris|
    ensures sides == sides0 + SidesOfTriangle(tris, vs, t) && i == 3
  {
    ghost var three := SidesOfTriangle(tris, vs, t);
    sides := sides0;
    i := 0;
    while i != 3
      invariant 0 <= i <= 3 && sides == sides0 + three[..i]
    {
      assert three[..i + 1] == three[..i] + [three[i]];
      sides := sides + [BuildEdge(tris, vs, t, i, (i + 1) % 3)];
      i := i + 1;
    }
    assert three[..3] == three;
  }

  /** The three sides of triangle t, in the order the side loop builds them. */
  function SidesOfTriangle(tris: seq<Triangle>, vs: seq<Point>, t: nat): (r: seq<Side>)
    requires TrianglesIn(tris, |vs|) && t < |tris|
    ensures |r| == 3
  {
    seq(3, i requires 0 <= i < 3 => BuildEdge(tris, vs, t, i, (i + 1) % 3))
  }

  /** The filter keeping the ring edges no side has. */
  method FilterMissing(edges: seq<RingEdge>, sides: seq<Side>) returns (miss: seq<RingEdge>)
    ensures miss == Missing(edges, sides)
  {
    miss := [];
    var k := 0;
    while k != |edges|
      invariant 0 <= k <= |edges| && miss == Missing(edges[..k], sides)
    {
      assert edges[..k + 1][..k] == edges[..k];
      var has := EdgesContains(sides, edges[k]);
      if !has {
        miss := miss + [edges[k]];
      }
      k := k + 1;
    }
    assert edges[..|edges|] == edges;
  }

  /** Rebuilding the three sides of triangle b after it was overwritten. */
  method RebuildSides(ghost prev: seq<Triangle>, tris: seq<Triangle>, vs: seq<Point>, sides: seq<Side>, b: nat)
    returns (rs: seq<Side>)
    requires TrianglesIn(tris, |vs|) && b < |tris| && |prev| == |tris|
    requires forall t :: 0 <= t < |tris| && t != b ==> prev[t] == tris[t]
    requires TrianglesIn(prev, |vs|) && sides == Sides(prev, vs)
    ensures rs == Sides(tris, vs)
  {
    rs := sides;
    var i := 0;
    while i != 3
      invariant 0 <= i <= 3 && |rs| == 3 * |tris|
      invariant forall t, c :: 0 <= t < |tris| && 0 <= c < 3 ==>
        rs[Pos(t, c)] == if t == b && c < i then BuildEdge(tris, vs, t, c, (c + 1) % 3)
                         else BuildEdge(prev, vs, t, c, (c + 1) % 3)
    {
      rs := rs[Pos(b, i) := BuildEdge(tris, vs, b, i, (i + 1) % 3)];
      i := i + 1;
    }
    SidesByPos(rs, tris, vs);
  }

  /** Pushing the three sides of the triangle just pushed. */
  method PushSides(tris: seq<Triangle>, vs: seq<Point>, sides: seq<Side>) returns (rs: seq<Side>, i: nat)
    requires |tris| > 0 && TrianglesIn(tris, |vs|)
    requires TrianglesIn(tris[..|tris| - 1], |vs|) && sides == Sides(tris[..|tris| - 1], vs)
    ensures rs == Sides(tris, vs) && i == 3
  {
    var last := |tris| - 1;
    SidesUnfold(tris, vs, last);
    rs, i := AddTriangleSides(tris, vs, last, sides);
  }

  /** Append triangle i of a split, with its three sides. */
  method PushTriangle(r0: seq<Triangle>, vs: seq<Point>, rs0: seq<Side>, after: seq<Triangle>, i: nat)
    returns (r: seq<Triangle>, rs: seq<Side>, j: nat)
    requires TrianglesIn(r0, |vs|) && rs0 == Sides(r0, vs) && TrianglesIn(after, |vs|) && i < |after|
    ensures r == r0 + [after[i]] && j == 3
    ensures i == 0 || after[1..i + 1] == after[1..i] + [after[i]]
    ensures TrianglesIn(r, |vs|) && rs == Sides(r, vs)
  {
    r := r0 + [after[i]];
    TrianglesSnoc(r0, after, i, |vs|);
    rs, j := PushSides(r, vs, rs0);
  }

  /** The push loop of one repair round: the triangles of the split after
      the first, each with its three sides. As written, the push loop and
      the side loop inside it share one counter, which the side loop
      leaves at 3, so the push loop runs once; the intended loop keeps
      its own counter. */
  method PushSplit(r0: seq<Triangle>, vs: seq<Point>, rs0: seq<Side>, after: seq<Triangle>, intended: bool)
    returns (r: seq<Triangle>, rs: seq<Side>)
    requires TrianglesIn(r0, |vs|) && rs0 == Sides(r0, vs) && TrianglesIn(after, |vs|) && 2 <= |after| <= 3
    ensures r == if intended then r0 + after[1..] else r0 + [after[1]]
    ensures TrianglesIn(r, |vs|) && rs == Sides(r, vs)
  {
    r, rs := r0, rs0;
    var i := 1;
    while i < |after|
      invariant TrianglesIn(r, |vs|) && rs == Sides(r, vs)
      invariant Pushed(r0, after, intended, i, r)
      decreases 4 - i
    {
      r, rs, i := PushSplitStep(r0, vs, r, rs, after, intended, i);
    }
    PushedEnd(r0, after, intended, i, r);
  }

  /** Where the push loop of a split stands before index i: with intended
      set, triangles 1 to i - 1 pushed; as written, the loop index is
      overwritten with 3 by the side loop, so only triangle 1 is pushed. */
  predicate Pushed(r0: seq<Triangle>, after: seq<Triangle>, intended: bool, i: nat, r: seq<Triangle>) {
    i <= 4 &&
    (intended ==> 1 <= i <= |after| && r == r0 + after[1..i]) &&
    (!intended ==> (i == 1 && r == r0) || (i == 4 && 2 <= |after| && r == r0 + [after[1]]))
  }

  /** The push loop ends with every triangle of the split after the first
      pushed, or only the second one as written. */
  lemma PushedEnd(r0: seq<Triangle>, after: seq<Triangle>, intended: bool, i: nat, r: seq<Triangle>)
    requires 2 <= |after| && Pushed(r0, after, intended, i, r) && i >= |after|
    ensures r == if intended then r0 + after[1..] else r0 + [after[1]]
  {
  }

  /** One round of the push loop of a split. */
  method PushSplitStep(ghost r0: seq<Triangle>, vs: seq<Point>, r1: seq<Triangle>, rs1: seq<Side>, after: seq<Triangle>,
                       intended: bool, i0: nat)
    returns (r: seq<Triangle>, rs: seq<Side>, i: nat)
    requires TrianglesIn(r1, |vs|) && rs1 == Sides(r1, vs) && TrianglesIn(after, |vs|) && |after| <= 3
    requires Pushed(r0, after, intended, i0, r1) && i0 < |after|
    ensures TrianglesIn(r, |vs|) && rs == Sides(r, vs)
    ensures Pushed(r0, after, intended, i, r) && i0 < i <= 4
  {
    var j;
    r, rs, j := PushTriangle(r1, vs, rs1, after, i0);
    if intended {
      AppendAssoc(r0, after[1..i0], [after[i0]]);
      i := i0 + 1;
    } else {
      i := j + 1;
    }
  }

  /** One round of the edge loop: find the best side for the missing edge
      and, if there is one, overwrite its triangle, rebuild its sides and
      push the rest of the split. */
  method RepairStep(tris: seq<Triangle>, vs: seq<Point>, sides: seq<Side>, target: RingEdge, intended: bool)
    returns (r: seq<Triangle>, rs: seq<Side>)
    requires TrianglesIn(tris, |vs|) && sides == Sides(tris, vs) && Fits(target, vs)
    ensures r == RepairEdge(tris, vs, target, intended)
    ensures TrianglesIn(r, |vs|) && rs == Sides(r, vs)
  {
    SidesAreSidesOf(tris, vs);
    r, rs := tris, sides;
    var t := FindBestMatchingEdge(sides, target, intended);
    if t.Some? {
      ghost var k :| 0 <= k < |sides| && t.value == SplitOf(sides[k], target, intended);
      SplitFits(tris, vs, sides, k, target, intended);
      r, rs := ApplySplitWithSides(tris, vs, sides, t.value, intended);
    }
  }

  /** Overwriting the split triangle, rebuilding its sides and pushing the
      rest of the split. */
  method ApplySplitWithSides(tris: seq<Triangle>, vs: seq<Point>, sides: seq<Side>, s: Split, intended: bool)
    returns (r: seq<Triangle>, rs: seq<Side>)
    requires TrianglesIn(tris, |vs|) && sides == Sides(tris, vs)
    requires s.before < |tris| && 2 <= |s.after| <= 3 && TrianglesIn(s.after, |vs|)
    ensures r == ApplyRepair(tris, s, intended)
    ensures TrianglesIn(r, |vs|) && rs == Sides(r, vs)
  {
    r := tris[s.before := s.after[0]];
    rs := RebuildSides(tris, r, vs, sides, s.before);
    r, rs := PushSplit(r, vs, rs, s.after, intended);
  }

  /** reintroduceMissingEdges: the ring edges, the flat points, the
      triangle sides, the ring edges no side has, then one repair round
      per such edge, in order. */
  method ReintroduceMissingEdges(tris: seq<Triangle>, contour: seq<Point>, holes: seq<seq<Point>>, intended: bool)
    returns (r: seq<Triangle>)
    requires TrianglesIn(tris, |Flat([contour] + holes)|)
    ensures r == Reintroduced(tris, [contour] + holes, intended)
  {
    var rings := [contour] + holes;
    var edges := CollectRingEdges(rings);
    var vs := FlatVertices(contour, holes);
    var sides := BuildSides(tris, vs);
    var miss := FilterMissing(edges, sides);
    RingEdgesFit(rings);
    MissingFit(edges, sides, vs);
    r := tris;
    var e := 0;
    while e != |miss|
      invariant 0 <= e <= |miss| && TrianglesIn(r, |vs|) && sides == Sides(r, vs)
      invariant r == RepairEdges(tris, vs, miss, e, intended)
    {
      RepairEdgesNext(tris, vs, miss, e, intended);
      r, sides := RepairStep(r, vs, sides, miss[e], intended);
      e := e + 1;
    }
  }

  // Properties of the repair.

  /** A triangle with three distinct corners. */
  predicate Proper(t: Triangle) {
    t[0] != t[1] && t[1] != t[2] && t[0] != t[2]
  }

  /** Whether some triangle of the list has both ends of the edge. */
  predicate HoldsEdge(tris: seq<Triangle>, e: RingEdge) {
    exists t :: 0 <= t < |tris| && e.id0 in tris[t] && e.id1 in tris[t]
  }

  /** The intended split always yields a triangle with both ends of the
      missing edge, for a side with distinct ends. */
  lemma SplitHoldsTarget(b: Side, target: RingEdge)
    requires b.id0 in b.tr && b.id1 in b.tr && b.id0 != b.id1
    ensures HoldsEdge(SplitOf(b, target, true).after, target)
  {
    var s := SplitOf(b, target, true);
    var idp1 := IndexOf(b.tr, b.id0);
    var idp2 := IndexOf(b.tr, b.id1);
    var (e1, e2) := Ext(b, target);
    if e1 {
      if target.id0 == b.id0 {
        assert s.after[1][idp1] == target.id0 && s.after[1][idp2] == target.id1;
      } else {
        assert s.after[0][idp2] == target.id0 && s.after[0][idp1] == target.id1;
      }
    } else if e2 {
      if target.id1 == b.id0 {
        assert s.after[1][idp1] == target.id1 && s.after[1][idp2] == target.id0;
      } else {
        assert s.after[0][idp2] == target.id1 && s.after[0][idp1] == target.id0;
      }
    } else {
      var goodOrder := DistanceSqrd(b.c0, target.c0) < DistanceSqrd(b.c0, target.c1);
      var n1 := if goodOrder then target.id0 else target.id1;
      var n2 := if goodOrder then target.id1 else target.id0;
      assert s.after[1][idp1] == n1 && s.after[1][idp2] == n2;
    }
  }

  /** The intended three-way split of side A-B of (A, B, C) for a missing
      edge N1-N2 away from A and B: (A, N1, C), (N1, N2, C), (N2, B, C),
      each keeping C and its position; the three are proper when the
      triangle is and N1, N2 are two new points. */
  lemma ThreeWaySplitIntended(b: Side, target: RingEdge)
    requires b.id0 in b.tr && b.id1 in b.tr && b.id0 != b.id1
    requires !Ext(b, target).0 && !Ext(b, target).1
    ensures var s := SplitOf(b, target, true);
      var idp1 := IndexOf(b.tr, b.id0);
      var idp2 := IndexOf(b.tr, b.id1);
      var goodOrder := DistanceSqrd(b.c0, target.c0) < DistanceSqrd(b.c0, target.c1);
      var n1 := if goodOrder then target.id0 else target.id1;
      var n2 := if goodOrder then target.id1 else target.id0;
      |s.after| == 3 &&
      s.after[0][idp1] == b.id0 && s.after[0][idp2] == n1 &&
      s.after[1][idp1] == n1 && s.after[1][idp2] == n2 &&
      s.after[2][idp1] == n2 && s.after[2][idp2] == b.id1 &&
      (forall i, c :: 0 <= i < 3 && 0 <= c < 3 && c != idp1 && c != idp2 ==> s.after[i][c] == b.tr[c]) &&
      (Proper(b.tr) && target.id0 != target.id1 && target.id0 !in b.tr && target.id1 !in b.tr ==>
         Proper(s.after[0]) && Proper(s.after[1]) && Proper(s.after[2]))
  {
    var idp1 := IndexOf(b.tr, b.id0);
    var idp2 := IndexOf(b.tr, b.id1);
    var goodOrder := DistanceSqrd(b.c0, target.c0) < DistanceSqrd(b.c0, target.c1);
    var n1 := if goodOrder then target.id0 else target.id1;
    var n2 := if goodOrder then target.id1 else target.id0;
    var after := SplitOf(b, target, true).after;
    assert after == [b.tr[idp2 := n1], b.tr[idp1 := n1][idp2 := n2], b.tr[idp1 := n2]];
    ThreeWayCorners(b.tr, idp1, idp2, n1, n2, after);
  }

  /** The corners of the intended three-way split of a triangle tr along
      its corners idp1 and idp2. */
  lemma ThreeWayCorners(tr: Triangle, idp1: nat, idp2: nat, n1: nat, n2: nat, after: seq<Triangle>)
    requires idp1 < 3 && idp2 < 3 && idp1 != idp2
    requires after == [tr[idp2 := n1], tr[idp1 := n1][idp2 := n2], tr[idp1 := n2]]
    ensures after[0][idp1] == tr[idp1] && after[0][idp2] == n1
    ensures after[1][idp1] == n1 && after[1][idp2] == n2
    ensures after[2][idp1] == n2 && after[2][idp2] == tr[idp2]
    ensures forall i, c :: 0 <= i < 3 && 0 <= c < 3 && c != idp1 && c != idp2 ==> after[i][c] == tr[c]
    ensures Proper(tr) && n1 != n2 && n1 !in tr && n2 !in tr ==>
      Proper(after[0]) && Proper(after[1]) && Proper(after[2])
  {
  }

  /** As written, the three-way split stores N2 twice into the second
      triangle and leaves the third a copy of the side's triangle: the
      second is degenerate, and when N1 and N2 are new points no triangle
      of the split has the missing edge. */
  lemma ThreeWaySplitAsWritten(b: Side, target: RingEdge)
    requires b.id0 in b.tr && b.id1 in b.tr && b.id0 != b.id1
    requires !Ext(b, target).0 && !Ext(b, target).1
    ensures var s := SplitOf(b, target, false);
      |s.after| == 3 && !Proper(s.after[1]) && s.after[2] == b.tr &&
      (target.id0 != target.id1 && target.id0 !in b.tr && target.id1 !in b.tr ==> !HoldsEdge(s.after, target))
  {
    var s := SplitOf(b, target, false);
    var idp1 := IndexOf(b.tr, b.id0);
    var idp2 := IndexOf(b.tr, b.id1);
    assert s.after[1][idp1] == s.after[1][idp2];
    if target.id0 != target.id1 && target.id0 !in b.tr && target.id1 !in b.tr {
      forall t | 0 <= t < 3 ensures !(target.id0 in s.after[t] && target.id1 in s.after[t]) {
        if t == 0 {
          assert forall c :: 0 <= c < 3 && c != idp2 ==> s.after[0][c] == b.tr[c];
        } else if t == 1 {
          assert forall c :: 0 <= c < 3 && c != idp1 && c != idp2 ==> s.after[1][c] == b.tr[c];
        }
      }
    }
  }

  /** As written, a repair round pushes one triangle, whatever the size of
      the split: the third triangle of a three-way split is lost. */
  lemma RepairPushesOneAsWritten(tris: seq<Triangle>, s: Split)
    requires s.before < |tris| && |s.after| >= 2
    ensures |ApplyRepair(tris, s, false)| == |tris| + 1
    ensures |s.after| == 3 && s.after[2] !in tris && s.after[2] != s.after[0] && s.after[2] != s.after[1] ==>
      s.after[2] !in ApplyRepair(tris, s, false)
  {
  }

  /** The intended round keeps every triangle of the split: the first in
      place of the split triangle, the others pushed in order. */
  lemma RepairKeepsSplitIntended(tris: seq<Triangle>, s: Split)
    requires s.before < |tris| && |s.after| >= 2
    ensures var r := ApplyRepair(tris, s, true);
      |r| == |tris| + |s.after| - 1 && r[s.before] == s.after[0] &&
      (forall i :: 1 <= i < |s.after| ==> r[|tris| + i - 1] == s.after[i]) &&
      (forall k :: 0 <= k < |tris| && k != s.before ==> r[k] == tris[k])
  {
  }

  /** The sides of proper triangles have distinct ends. */
  lemma SidesProper(tris: seq<Triangle>, vs: seq<Point>)
    requires TrianglesIn(tris, |vs|) && forall t :: 0 <= t < |tris| ==> Proper(tris[t])
    ensures forall k :: 0 <= k < |Sides(tris, vs)| ==> Sides(tris, vs)[k].id0 != Sides(tris, vs)[k].id1
  {
    var sides := Sides(tris, vs);
    forall k | 0 <= k < |sides| ensures sides[k].id0 != sides[k].id1 {
      var t, i := k / 3, k % 3;
      assert k == Pos(t, i);
      assert sides[k] == BuildEdge(tris, vs, t, i, (i + 1) % 3);
      assert Proper(tris[t]);
    }
  }

  /** Every intended repair round for which a side is found puts the
      missing edge into the triangulation, as long as its triangles are
      proper. */
  lemma RepairEdgePlacesEdge(tris: seq<Triangle>, vs: seq<Point>, target: RingEdge)
    requires TrianglesIn(tris, |vs|) && target.id0 < |vs| && target.id1 < |vs|
    requires forall t :: 0 <= t < |tris| ==> Proper(tris[t])
    requires exists j :: 0 <= j < |Sides(tris, vs)| && Dist(Sides(tris, vs)[j], target).Some?
    ensures HoldsEdge(RepairEdge(tris, vs, target, true), target)
  {
    var sides := Sides(tris, vs);
    SidesAreSidesOf(tris, vs);
    SidesProper(tris, vs);
    var s := BestSplit(sides, target, true).value;
    var k :| 0 <= k < |sides| && s == SplitOf(sides[k], target, true);
    SplitHoldsTarget(sides[k], target);
    SplitFits(tris, vs, sides, k, target, true);
    var r := RepairEdge(tris, vs, target, true);
    assert r == ApplyRepair(tris, s, true);
    PlacedPiece(tris, s, target);
  }

  lemma PlacedPiece(tris: seq<Triangle>, s: Split, target: RingEdge)
    requires s.before < |tris| && |s.after| >= 2 && HoldsEdge(s.after, target)
    ensures HoldsEdge(ApplyRepair(tris, s, true), target)
  {
    var r := ApplyRepair(tris, s, true);
    var i :| 0 <= i < |s.after| && target.id0 in s.after[i] && target.id1 in s.after[i];
    if i == 0 {
      assert r[s.before] == s.after[0];
    } else {
      assert r[|tris| + i - 1] == s.after[i];
    }
  }
}
