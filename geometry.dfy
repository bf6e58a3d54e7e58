/** Planar geometry shared by every stage: points, squared distances,
    the shoelace orientation test and the ray-casting containment test.
    Coordinates are exact reals. */
module Geometry {

  /** A 2D point, the [x, y] pair of the drawing. */
  datatype Point = Point(x: real, y: real)

  /** A 3D mesh vertex. */
  datatype Vertex3 = Vertex3(x: real, y: real, z: real)

  function DistanceSqrd(a: Point, b: Point): (r: real)
    ensures r >= 0.0
  {
    SquaresSumZero(a.x - b.x, a.y - b.y);
    (a.x - b.x) * (a.x - b.x) + (a.y - b.y) * (a.y - b.y)
  }

  lemma SquaresSumZero(c: real, d: real)
    ensures c * c + d * d >= 0.0
  {
    SquarePositive(c);
    SquarePositive(d);
  }

  lemma SquarePositive(c: real)
    ensures c * c >= 0.0
    ensures c != 0.0 ==> c * c > 0.0
  {
    if c > 0.0 {
      MulPositive(c, c);
    } else if c < 0.0 {
      MulPositive(-c, -c);
      assert c * c == (-c) * (-c);
    }
  }

  lemma MulPositive(a: real, b: real)
    requires a > 0.0 && b > 0.0
    ensures a * b > 0.0
  {
  }

  lemma MulNonNegative(a: real, b: real)
    requires a >= 0.0 && b >= 0.0
    ensures a * b >= 0.0
  {
    if a > 0.0 && b > 0.0 {
      MulPositive(a, b);
    }
  }

  /** A factor of a non-positive product with a positive number is non-positive. */
  lemma NonPositiveFactor(x: real, d: real)
    requires d > 0.0 && x * d <= 0.0
    ensures x <= 0.0
  {
    if x > 0.0 {
      MulPositive(x, d);
    }
  }

  /** A quotient n / d with n between 0 and d lies in [0, 1]. */
  lemma QuotientInUnit(n: real, d: real)
    requires (d > 0.0 && 0.0 <= n <= d) || (d < 0.0 && d <= n <= 0.0)
    ensures 0.0 <= n / d <= 1.0
  {
    var q := n / d;
    assert q * d == n;
    if d > 0.0 {
      assert (-q) * d == -n;
      NonPositiveFactor(-q, d);
      assert (q - 1.0) * d == n - d;
      NonPositiveFactor(q - 1.0, d);
    } else {
      assert (-q) * (-d) == n;
      assert q * (-d) == -n;
      NonPositiveFactor(-q, -d);
      assert (q - 1.0) * (-d) == d - n;
      NonPositiveFactor(q - 1.0, -d);
    }
  }

  /** The point A + t (B - A) of the line through A and B. */
  function Lerp(a: Point, b: Point, t: real): Point {
    Point(a.x + t * (b.x - a.x), a.y + t * (b.y - a.y))
  }

  /** Dot product of C - A and B - A. */
  function Dot(c: Point, a: Point, b: Point): real {
    (c.x - a.x) * (b.x - a.x) + (c.y - a.y) * (b.y - a.y)
  }

  /** Parameter of the perpendicular foot of C on the line (A, B),
      defined when A and B differ. */
  function FootParam(c: Point, a: Point, b: Point): real
    requires DistanceSqrd(a, b) > 0.0
  {
    Dot(c, a, b) / DistanceSqrd(a, b)
  }

  /** Squared distance from C to the segment [A, B], or -1 when the segment
      is shorter than epsilon (squared) or the perpendicular foot of C falls
      outside the segment. */
  function DistanceSqrdPointSegment(c: Point, a: Point, b: Point, epsilon: real): (r: real)
    requires epsilon >= 0.0
    ensures r == -1.0 || r >= 0.0
    ensures r == -1.0 <==>
              DistanceSqrd(a, b) <= epsilon ||
              FootParam(c, a, b) < 0.0 || FootParam(c, a, b) > 1.0
    ensures r >= 0.0 ==> r == DistanceSqrd(c, Lerp(a, b, FootParam(c, a, b)))
  {
    var l2 := DistanceSqrd(a, b);
    if l2 <= epsilon then -1.0
    else
      var r := FootParam(c, a, b);
      if r < 0.0 || r > 1.0 then -1.0
      else DistanceSqrd(c, Lerp(a, b, r))
  }

  /** The perpendicular foot is the nearest point of the whole line, so a
      non-negative result of DistanceSqrdPointSegment is the distance from C
      to the segment. */
  lemma FootIsNearest(c: Point, a: Point, b: Point, t: real)
    requires DistanceSqrd(a, b) > 0.0
    ensures DistanceSqrd(c, Lerp(a, b, t)) >= DistanceSqrd(c, Lerp(a, b, FootParam(c, a, b)))
  {
    AlongLine(c, a, b, t);
    AlongLine(c, a, b, FootParam(c, a, b));
    Quadratic(DistanceSqrd(c, a), Dot(c, a, b), DistanceSqrd(a, b), FootParam(c, a, b), t);
  }

  /** A product, kept behind a function so that the lemmas below combine
      their results linearly. */
  function Mul(a: real, b: real): real { a * b }

  lemma ExpandSq(u: real, d: real, s: real)
    ensures (u - s * d) * (u - s * d) == u * u - 2.0 * (s * (u * d)) + (s * s) * (d * d)
  {
  }

  /** Squared distance from C to the point of parameter s on the line (A, B),
      expanded as a polynomial in s. */
  lemma AlongLine(c: Point, a: Point, b: Point, s: real)
    ensures DistanceSqrd(c, Lerp(a, b, s)) ==
            DistanceSqrd(c, a) - 2.0 * Mul(s, Dot(c, a, b)) + Mul(Mul(s, s), DistanceSqrd(a, b))
  {
    var ux, dx, uy, dy := c.x - a.x, b.x - a.x, c.y - a.y, b.y - a.y;
    var p := Lerp(a, b, s);
    assert c.x - p.x == ux - s * dx && c.y - p.y == uy - s * dy;
    assert DistanceSqrd(c, p) == (ux - s * dx) * (ux - s * dx) + (uy - s * dy) * (uy - s * dy);
    assert DistanceSqrd(a, b) == dx * dx + dy * dy by {
      NegSq(dx);
      NegSq(dy);
      assert a.x - b.x == -dx && a.y - b.y == -dy;
    }
    ExpandPlane(ux, dx, uy, dy, s);
  }

  lemma ExpandPlane(ux: real, dx: real, uy: real, dy: real, s: real)
    ensures (ux - s * dx) * (ux - s * dx) + (uy - s * dy) * (uy - s * dy) ==
            (ux * ux + uy * uy) - 2.0 * Mul(s, ux * dx + uy * dy) + Mul(Mul(s, s), dx * dx + dy * dy)
  {
    ExpandSq(ux, dx, s);
    ExpandSq(uy, dy, s);
  }

  lemma NegSq(d: real)
    ensures (-d) * (-d) == d * d
  {
  }

  /** A quadratic u - 2 s d + s^2 l with l > 0 is least at s = d / l. */
  lemma Quadratic(u: real, d: real, l: real, r: real, t: real)
    requires l > 0.0 && r == d / l
    ensures u - 2.0 * Mul(t, d) + Mul(Mul(t, t), l) >= u - 2.0 * Mul(r, d) + Mul(Mul(r, r), l)
  {
    assert r * l == d;
    var q := t - r;
    SquarePositive(q);
    MulNonNegative(q * q, l);
    assert (t * t) * l - 2.0 * (t * d) - (r * r) * l + 2.0 * (r * d) == (q * q) * l;
  }

  // ---------------------------------------------------------------------
  // Orientation (the shoelace sum of clockwise)

  /** One shoelace term of consecutive points p1, p2. */
  function Term(p1: Point, p2: Point): real {
    (p2.x - p1.x) * (p2.y + p1.y)
  }

  /** Sum of the shoelace terms of all consecutive pairs of a path. */
  function ShoelaceSum(path: seq<Point>): real
    decreases |path|
  {
    if |path| <= 1 then 0.0
    else ShoelaceSum(path[..|path| - 1]) + Term(path[|path| - 2], path[|path| - 1])
  }

  /** What clockwise answers: more than two points and a non-negative sum. */
  predicate IsClockwise(path: seq<Point>) {
    |path| > 2 && ShoelaceSum(path) >= 0.0
  }

  /** The loop of clockwise. */
  method Clockwise(path: seq<Point>) returns (cw: bool)
    ensures cw == IsClockwise(path)
  {
    if |path| <= 2 {
      return false;
    }
    var sum := 0.0;
    var i := 1;
    while i != |path|
      invariant 1 <= i <= |path|
      invariant sum == ShoelaceSum(path[..i])
    {
      var p1 := path[i - 1];
      var p2 := path[i];
      assert path[..i + 1][..i] == path[..i];
      sum := sum + Term(p1, p2);
      i := i + 1;
    }
    assert path[..i] == path;
    cw := sum >= 0.0;
  }

  function Reverse<T>(s: seq<T>): (r: seq<T>)
    ensures |r| == |s|
    ensures forall k :: 0 <= k < |s| ==> r[k] == s[|s| - 1 - k]
  {
    if s == [] then [] else [s[|s| - 1]] + Reverse(s[..|s| - 1])
  }

  lemma ReverseReverse<T>(s: seq<T>)
    ensures Reverse(Reverse(s)) == s
  {
  }

  lemma {:induction false} ShoelaceCons(a: Point, s: seq<Point>)
    requires |s| >= 1
    ensures ShoelaceSum([a] + s) == Term(a, s[0]) + ShoelaceSum(s)
    decreases |s|
  {
    if |s| == 1 {
      assert [a] + s == [a, s[0]];
      assert [a, s[0]][..1] == [a];
    } else {
      var n := |s|;
      assert ([a] + s)[..n] == [a] + s[..n - 1];
      ShoelaceCons(a, s[..n - 1]);
    }
  }

  /** Reversing a path negates its shoelace sum. */
  lemma {:induction false} ShoelaceReverse(path: seq<Point>)
    ensures ShoelaceSum(Reverse(path)) == -ShoelaceSum(path)
    decreases |path|
  {
    var n := |path|;
    if n <= 1 {
      assert Reverse(path) == path;
    } else {
      var init := path[..n - 1];
      ShoelaceReverse(init);
      assert Reverse(path) == [path[n - 1]] + Reverse(init);
      ShoelaceCons(path[n - 1], Reverse(init));
      assert Reverse(init)[0] == path[n - 2];
    }
  }

  /** Reversing a path of more than two points whose sum is negative makes
      it clockwise; reversing a clockwise path makes its sum non-positive. */
  lemma ReverseOrientation(path: seq<Point>)
    ensures |path| > 2 && !IsClockwise(path) ==> IsClockwise(Reverse(path))
    ensures IsClockwise(path) ==> ShoelaceSum(Reverse(path)) <= 0.0
  {
    ShoelaceReverse(path);
  }

  // ---------------------------------------------------------------------
  // Ray casting (inside)

  /** Whether the horizontal ray from pt towards +x crosses the side
      (vs[i], vs[j]) of the polygon. */
  predicate Crosses(pt: Point, pi: Point, pj: Point) {
    ((pi.y > pt.y) != (pj.y > pt.y)) &&
    (pt.x < (pj.x - pi.x) * (pt.y - pi.y) / (pj.y - pi.y) + pi.x)
  }

  /** Index of the vertex before vs[i], cyclically. */
  function Prev(n: nat, i: nat): nat
    requires i < n
  {
    if i == 0 then n - 1 else i - 1
  }

  /** Parity of the crossings of sides (vs[i], vs[Prev(i)]) for i < n. */
  predicate InsideUpTo(pt: Point, vs: seq<Point>, n: nat)
    requires n <= |vs|
  {
    if n == 0 then false
    else InsideUpTo(pt, vs, n - 1) != Crosses(pt, vs[n - 1], vs[Prev(|vs|, n - 1)])
  }

  /** The ray-casting answer of inside: an odd number of crossings. */
  predicate Inside(pt: Point, vs: seq<Point>) {
    InsideUpTo(pt, vs, |vs|)
  }

  /** The loop of inside. */
  method RayCast(pt: Point, vs: seq<Point>) returns (ins: bool)
    ensures ins == Inside(pt, vs)
  {
    ins := false;
    if |vs| == 0 {
      return;
    }
    var i, j := 0, |vs| - 1;
    while i < |vs|
      invariant 0 <= i <= |vs|
      invariant i < |vs| ==> j == Prev(|vs|, i)
      invariant ins == InsideUpTo(pt, vs, i)
    {
      var intersect := Crosses(pt, vs[i], vs[j]);
      if intersect {
        ins := !ins;
      }
      j, i := i, i + 1;
    }
  }

  /** The crossing abscissa lies between the two endpoints' abscissas. */
  lemma CrossingBetween(pt: Point, pi: Point, pj: Point)
    requires (pi.y > pt.y) != (pj.y > pt.y)
    ensures var ix := (pj.x - pi.x) * (pt.y - pi.y) / (pj.y - pi.y) + pi.x;
            ix <= (if pi.x < pj.x then pj.x else pi.x)
  {
    var t := (pt.y - pi.y) / (pj.y - pi.y);
    assert 0.0 <= t <= 1.0 by {
      QuotientInUnit(pt.y - pi.y, pj.y - pi.y);
    }
    assert (pj.x - pi.x) * (pt.y - pi.y) / (pj.y - pi.y) == t * (pj.x - pi.x);
    if pi.x < pj.x {
      MulNonNegative(1.0 - t, pj.x - pi.x);
      assert t * (pj.x - pi.x) <= pj.x - pi.x;
    } else {
      MulNonNegative(t, pi.x - pj.x);
      assert t * (pj.x - pi.x) <= 0.0;
    }
  }

  /** A side whose two endpoints are left of pt is never crossed. */
  lemma NoCrossingLeftSide(pt: Point, pi: Point, pj: Point)
    requires pi.x <= pt.x && pj.x <= pt.x
    ensures !Crosses(pt, pi, pj)
  {
    if (pi.y > pt.y) != (pj.y > pt.y) {
      CrossingBetween(pt, pi, pj);
      var ix := (pj.x - pi.x) * (pt.y - pi.y) / (pj.y - pi.y) + pi.x;
      assert ix <= pt.x;
    }
  }

  /** A point at or beyond the right-most vertex is never inside. */
  lemma {:induction false} RightOfAllIsOutside(pt: Point, vs: seq<Point>, n: nat)
    requires n <= |vs|
    requires forall k :: 0 <= k < |vs| ==> vs[k].x <= pt.x
    ensures !InsideUpTo(pt, vs, n)
  {
    if n > 0 {
      RightOfAllIsOutside(pt, vs, n - 1);
      NoCrossingLeftSide(pt, vs[n - 1], vs[Prev(|vs|, n - 1)]);
    }
  }
}
