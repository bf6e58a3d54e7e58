/** Ring clean-up of SVG3DScene (js/SVGtoSTL.js): the consecutive-double
    filter of removeConsecutiveDoubles and the segment test of
    addPointIfMissing, as functions on rings, with the facts the scene's
    methods rely on. */
module Cleanup {
  import opened Geometry

  type Ring = seq<Point>

  /** A scene's paths: shapes, each a list of rings. */
  type Paths = seq<seq<Ring>>

  // ---------------------------------------------------------------------
  // Subsequences

  /** idx picks, in increasing order, the positions of b that spell a. */
  ghost predicate Embeds<T>(a: seq<T>, b: seq<T>, idx: seq<nat>) {
    |idx| == |a| &&
    (forall k :: 0 <= k < |idx| ==> idx[k] < |b| && b[idx[k]] == a[k]) &&
    (forall k, l :: 0 <= k < l < |idx| ==> idx[k] < idx[l])
  }

  /** a is b with some elements deleted; the rest keep their order. */
  ghost predicate Subseq<T>(a: seq<T>, b: seq<T>) {
    exists idx :: Embeds(a, b, idx)
  }

  lemma SubseqRefl<T>(a: seq<T>)
    ensures Subseq(a, a)
  {
    var idx := seq(|a|, k => k);
    assert Embeds(a, a, idx);
  }

  lemma SubseqTrans<T>(a: seq<T>, b: seq<T>, c: seq<T>)
    requires Subseq(a, b) && Subseq(b, c)
    ensures Subseq(a, c)
  {
    var i1 :| Embeds(a, b, i1);
    var i2 :| Embeds(b, c, i2);
    var idx := seq(|a|, k requires 0 <= k < |a| => i2[i1[k]]);
    assert Embeds(a, c, idx);
  }

  /** Inserting one element keeps the old sequence as a subsequence. */
  lemma SubseqInsert<T>(a: seq<T>, h: nat, x: T)
    requires h <= |a|
    ensures Subseq(a, a[..h] + [x] + a[h..])
  {
    var b := a[..h] + [x] + a[h..];
    var idx := seq(|a|, k => if k < h then k else k + 1);
    assert Embeds(a, b, idx);
  }

  // ---------------------------------------------------------------------
  // removeConsecutiveDoubles

  /** The filter of removeConsecutiveDoubles keeps position pos of r when it
      is the first or differs from the point before it in r. */
  predicate Keep(r: Ring, pos: nat)
    requires pos < |r|
  {
    pos == 0 || r[pos] != r[pos - 1]
  }

  /** The filter applied to the first n points. */
  function DedupUpTo(r: Ring, n: nat): Ring
    requires n <= |r|
  {
    if n == 0 then [] else DedupUpTo(r, n - 1) + (if Keep(r, n - 1) then [r[n - 1]] else [])
  }

  function Dedup(r: Ring): Ring {
    DedupUpTo(r, |r|)
  }

  /** The positions the filter keeps among the first n. */
  function KeptUpTo(r: Ring, n: nat): seq<nat>
    requires n <= |r|
  {
    if n == 0 then [] else KeptUpTo(r, n - 1) + (if Keep(r, n - 1) then [n - 1] else [])
  }

  predicate NoAdjacentDoubles(r: Ring) {
    forall k :: 0 < k < |r| ==> r[k] != r[k - 1]
  }

  lemma {:induction false} DedupUpToFacts(r: Ring, n: nat)
    requires n <= |r|
    ensures Embeds(DedupUpTo(r, n), r, KeptUpTo(r, n))
    ensures forall k :: 0 <= k < |KeptUpTo(r, n)| ==> KeptUpTo(r, n)[k] < n
    ensures n > 0 ==> |DedupUpTo(r, n)| > 0 && DedupUpTo(r, n)[0] == r[0]
    ensures n > 0 ==> DedupUpTo(r, n)[|DedupUpTo(r, n)| - 1] == r[n - 1]
    ensures NoAdjacentDoubles(DedupUpTo(r, n))
  {
    if n > 0 {
      DedupUpToFacts(r, n - 1);
      var d := DedupUpTo(r, n - 1);
      var idx := KeptUpTo(r, n - 1);
      if Keep(r, n - 1) {
        assert DedupUpTo(r, n) == d + [r[n - 1]] && KeptUpTo(r, n) == idx + [n - 1];
        KeepStep(r, d, idx, n - 1);
      } else {
        assert DedupUpTo(r, n) == d && KeptUpTo(r, n) == idx;
      }
    }
  }

  /** Keeping point p after the kept points before it. */
  lemma KeepStep(r: Ring, d: Ring, idx: seq<nat>, p: nat)
    requires p < |r| && Keep(r, p) && Embeds(d, r, idx) && NoAdjacentDoubles(d)
    requires forall k :: 0 <= k < |idx| ==> idx[k] < p
    requires p > 0 ==> |d| > 0 && d[|d| - 1] == r[p - 1]
    requires p == 0 ==> d == []
    ensures Embeds(d + [r[p]], r, idx + [p])
    ensures forall k :: 0 <= k < |idx + [p]| ==> (idx + [p])[k] < p + 1
    ensures NoAdjacentDoubles(d + [r[p]])
    ensures (d + [r[p]])[0] == (if p == 0 then r[0] else d[0])
  {
    var d' := d + [r[p]];
    var idx' := idx + [p];
    assert forall k :: 0 <= k < |idx| ==> idx'[k] == idx[k] && d'[k] == d[k];
    forall k | 0 < k < |d'| ensures d'[k] != d'[k - 1] {
      if k == |d'| - 1 {
        assert d'[k - 1] == d[|d| - 1] == r[p - 1];
      } else {
        assert d'[k] == d[k] && d'[k - 1] == d[k - 1];
      }
    }
  }

  /** removeConsecutiveDoubles leaves a subsequence of the ring that keeps
      its first point and has no two equal neighbours. */
  lemma DedupProperties(r: Ring)
    ensures Subseq(Dedup(r), r)
    ensures |r| > 0 ==> |Dedup(r)| > 0 && Dedup(r)[0] == r[0]
    ensures NoAdjacentDoubles(Dedup(r))
  {
    DedupUpToFacts(r, |r|);
  }

  /** On a ring without equal neighbours the filter changes nothing. */
  lemma {:induction false} DedupFixpoint(r: Ring, n: nat)
    requires n <= |r| && NoAdjacentDoubles(r)
    ensures DedupUpTo(r, n) == r[..n]
  {
    if n > 0 {
      DedupFixpoint(r, n - 1);
      assert r[..n] == r[..n - 1] + [r[n - 1]];
    }
  }

  /** Running removeConsecutiveDoubles twice equals running it once. */
  lemma DedupIdempotent(r: Ring)
    ensures Dedup(Dedup(r)) == Dedup(r)
  {
    DedupProperties(r);
    var d := Dedup(r);
    DedupFixpoint(d, |d|);
    assert d[..|d|] == d;
  }

  // ---------------------------------------------------------------------
  // addPointIfMissing

  function PowNat(b: real, n: nat): (p: real)
    requires b > 0.0
    ensures p > 0.0
  {
    if n == 0 then 1.0 else b * PowNat(b, n - 1)
  }

  /** 0.1 ** (precision + 4), the tolerance of addPointIfMissing; a
      negative exponent gives a power of ten. */
  function Epsilon(precision: int): (e: real)
    ensures e > 0.0
    ensures precision + 4 >= 0 ==> e == PowNat(0.1, precision + 4)
    ensures precision + 4 < 0 ==> e == PowNat(10.0, -(precision + 4))
  {
    if precision + 4 >= 0 then PowNat(0.1, precision + 4) else PowNat(10.0, -(precision + 4))
  }

  /** The segment ending at position i of the path passes within epsilon of
      the point, which is itself farther than epsilon from both ends. */
  predicate SegmentHit(path: Ring, point: Point, epsilon: real, i: nat)
    requires 1 <= i < |path| && epsilon >= 0.0
  {
    var dist := DistanceSqrdPointSegment(point, path[i - 1], path[i], epsilon);
    dist >= 0.0 && dist <= epsilon &&
    DistanceSqrd(point, path[i - 1]) > epsilon && DistanceSqrd(point, path[i]) > epsilon
  }

  /** The outcome addPointIfMissing promises: the path unchanged when no
      segment is hit, otherwise the point inserted once, at the end of the
      first segment hit. */
  ghost predicate InsertedAtFirstHit(path: Ring, point: Point, epsilon: real, r: Ring)
    requires epsilon >= 0.0
  {
    if |path| <= 1 then r == path
    else if exists h :: 1 <= h < |path| && SegmentHit(path, point, epsilon, h) then
      exists h :: 1 <= h < |path| && SegmentHit(path, point, epsilon, h) &&
        (forall g :: 1 <= g < h ==> !SegmentHit(path, point, epsilon, g)) &&
        r == path[..h] + [point] + path[h..]
    else r == path
  }

  /** The points of all rings. */
  function PointSet(paths: Paths): set<Point> {
    set i, j, k | 0 <= i < |paths| && 0 <= j < |paths[i]| && 0 <= k < |paths[i][j]| :: paths[i][j][k]
  }

  /** The points of a ring that sits among the paths are among their points. */
  lemma RingInPointSet(paths: Paths, i: nat, j: nat)
    requires i < |paths| && j < |paths[i]|
    ensures forall k :: 0 <= k < |paths[i][j]| ==> paths[i][j][k] in PointSet(paths)
  {
  }
}
