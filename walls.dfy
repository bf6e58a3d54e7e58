/** The vertical walls of SVG3DScene.addSides (js/SVGtoSTL.js): for each
    boundary edge that lies highest among the boundary edges above the same
    (x, y) segment, the vertices stacked above its two ends form two columns,
    sorted by z and trimmed to the vertices of boundary edges, and a strip of
    triangles joins the columns. */
module Walls {
  import opened Geometry
  import opened Meshes

  /** Same (x, y) location, any z. */
  predicate SameXY(u: Vertex3, v: Vertex3) {
    u.x == v.x && u.y == v.y
  }

  /** All ids in s name vertices. */
  predicate IdsIn(s: seq<nat>, vs: seq<Vertex3>) {
    forall x :: x in s ==> x < |vs|
  }

  /** Both ends of every edge name vertices. */
  predicate EdgesIn(es: seq<Edge>, vs: seq<Vertex3>) {
    forall e :: e in es ==> e.v1 < |vs| && e.v2 < |vs|
  }

  // ---------------------------------------------------------------------
  // getPointsSame2DLocationPt, getPointsSame2DLocation

  /** The ids below n, other than id, of the vertices at the (x, y) of id. */
  function SameLocationUpTo(vs: seq<Vertex3>, id: nat, n: nat): seq<nat>
    requires id < |vs| && n <= |vs|
  {
    if n == 0 then []
    else
      SameLocationUpTo(vs, id, n - 1) +
        (if n - 1 != id && SameXY(vs[n - 1], vs[id]) then [n - 1] else [])
  }

  function SameLocation(vs: seq<Vertex3>, id: nat): seq<nat>
    requires id < |vs|
  {
    SameLocationUpTo(vs, id, |vs|)
  }

  lemma {:induction false} SameLocationUpToSpec(vs: seq<Vertex3>, id: nat, n: nat)
    requires id < |vs| && n <= |vs|
    ensures forall k: nat :: k in SameLocationUpTo(vs, id, n) <==> k < n && k != id && SameXY(vs[k], vs[id])
    ensures forall a, b :: 0 <= a < b < |SameLocationUpTo(vs, id, n)| ==>
      SameLocationUpTo(vs, id, n)[a] < SameLocationUpTo(vs, id, n)[b]
  {
    if n > 0 {
      SameLocationUpToSpec(vs, id, n - 1);
      var p := SameLocationUpTo(vs, id, n - 1);
      var r := SameLocationUpTo(vs, id, n);
      forall a, b | 0 <= a < b < |r| ensures r[a] < r[b] {
        if b < |p| {
          assert r[a] == p[a] && r[b] == p[b];
        } else {
          assert r[a] == p[a] && p[a] in p;
        }
      }
    }
  }

  /** getPointsSame2DLocationPt lists, in increasing order, exactly the
      other vertices at the same (x, y). */
  lemma SameLocationSpec(vs: seq<Vertex3>, id: nat)
    requires id < |vs|
    ensures forall k: nat :: k in SameLocation(vs, id) <==> k < |vs| && k != id && SameXY(vs[k], vs[id])
    ensures forall a, b :: 0 <= a < b < |SameLocation(vs, id)| ==> SameLocation(vs, id)[a] < SameLocation(vs, id)[b]
  {
    SameLocationUpToSpec(vs, id, |vs|);
  }

  method GetPointsSame2DLocationPt(m: Mesh, pointID: nat) returns (result: seq<nat>)
    requires pointID < |m.vertices|
    ensures result == SameLocation(m.vertices, pointID)
    ensures forall k: nat :: k in result <==> k < |m.vertices| && k != pointID && SameXY(m.vertices[k], m.vertices[pointID])
  {
    var point := m.vertices[pointID];
    result := [];
    var i := 0;
    while i != |m.vertices|
      invariant 0 <= i <= |m.vertices|
      invariant result == SameLocationUpTo(m.vertices, pointID, i)
    {
      var p := m.vertices[i];
      if i != pointID && p.x == point.x && p.y == point.y {
        result := result + [i];
      }
      i := i + 1;
    }
    SameLocationSpec(m.vertices, pointID);
  }

  /** The end ids of the first n edges. */
  function EndpointsUpTo(es: seq<Edge>, n: nat): set<nat>
    requires n <= |es|
  {
    if n == 0 then {} else EndpointsUpTo(es, n - 1) + {es[n - 1].v1, es[n - 1].v2}
  }

  function Endpoints(es: seq<Edge>): set<nat> {
    EndpointsUpTo(es, |es|)
  }

  lemma {:induction false} EndpointsUpToSpec(es: seq<Edge>, n: nat, x: nat)
    requires n <= |es|
    ensures x in EndpointsUpTo(es, n) <==> exists k :: 0 <= k < n && (es[k].v1 == x || es[k].v2 == x)
  {
    if n > 0 {
      EndpointsUpToSpec(es, n - 1, x);
    }
  }

  lemma EndpointsSpec(es: seq<Edge>, x: nat)
    ensures x in Endpoints(es) <==> exists e :: e in es && (e.v1 == x || e.v2 == x)
  {
    EndpointsUpToSpec(es, |es|, x);
    if exists e :: e in es && (e.v1 == x || e.v2 == x) {
      var e :| e in es && (e.v1 == x || e.v2 == x);
      var k :| 0 <= k < |es| && es[k] == e;
    }
  }

  /** getPointsSame2DLocation after the first n edges: each end id, on
      its first visit, mapped to the other vertices at its (x, y). */
  function PointsMapUpTo(vs: seq<Vertex3>, es: seq<Edge>, n: nat): map<nat, seq<nat>>
    requires EdgesIn(es, vs) && n <= |es|
  {
    if n == 0 then map[]
    else
      var r := PointsMapUpTo(vs, es, n - 1);
      var e := es[n - 1];
      assert e in es;
      var r1 := if e.v1 in r then r else r[e.v1 := SameLocation(vs, e.v1)];
      if e.v2 in r1 then r1 else r1[e.v2 := SameLocation(vs, e.v2)]
  }

  /** sPoints. */
  function SameLocationMap(vs: seq<Vertex3>, es: seq<Edge>): map<nat, seq<nat>>
    requires EdgesIn(es, vs)
  {
    PointsMapUpTo(vs, es, |es|)
  }

  lemma {:induction false} PointsMapUpToSpec(vs: seq<Vertex3>, es: seq<Edge>, n: nat, id: nat)
    requires EdgesIn(es, vs) && n <= |es|
    ensures id in PointsMapUpTo(vs, es, n) <==> id in EndpointsUpTo(es, n)
    ensures id in PointsMapUpTo(vs, es, n) ==> id < |vs| && PointsMapUpTo(vs, es, n)[id] == SameLocation(vs, id)
  {
    if n > 0 {
      PointsMapUpToSpec(vs, es, n - 1, id);
      assert es[n - 1] in es;
    }
  }

  /** Every end id of an edge is a key of sPoints, nothing else is, and
      each maps to the other vertices at its (x, y). */
  lemma SameLocationMapKeys(vs: seq<Vertex3>, es: seq<Edge>, x: nat)
    requires EdgesIn(es, vs)
    ensures x in SameLocationMap(vs, es) <==> exists e :: e in es && (e.v1 == x || e.v2 == x)
    ensures x in SameLocationMap(vs, es) ==> x < |vs| && SameLocationMap(vs, es)[x] == SameLocation(vs, x)
  {
    PointsMapUpToSpec(vs, es, |es|, x);
    EndpointsSpec(es, x);
  }

  /** getPointsSame2DLocation, filling the map on the first visit of each
      end id. */
  method GetPointsSame2DLocation(m: Mesh, bEdges: seq<Edge>) returns (result: map<nat, seq<nat>>)
    requires EdgesIn(bEdges, m.vertices)
    ensures result == SameLocationMap(m.vertices, bEdges)
  {
    result := map[];
    var i := 0;
    while i != |bEdges|
      invariant 0 <= i <= |bEdges|
      invariant result == PointsMapUpTo(m.vertices, bEdges, i)
    {
      var e := bEdges[i];
      assert e in bEdges;
      if e.v1 !in result {
        var pts := GetPointsSame2DLocationPt(m, e.v1);
        result := result[e.v1 := pts];
      }
      if e.v2 !in result {
        var pts := GetPointsSame2DLocationPt(m, e.v2);
        result := result[e.v2 := pts];
      }
      i := i + 1;
    }
  }

  /** The values of sPoints name vertices. */
  predicate PointsMapIn(sp: map<nat, seq<nat>>, vs: seq<Vertex3>) {
    forall id :: id in sp ==> id < |vs| && IdsIn(sp[id], vs)
  }

  lemma SameLocationMapIn(vs: seq<Vertex3>, es: seq<Edge>)
    requires EdgesIn(es, vs)
    ensures PointsMapIn(SameLocationMap(vs, es), vs)
  {
    forall id | id in SameLocationMap(vs, es) ensures id < |vs| && IdsIn(SameLocationMap(vs, es)[id], vs) {
      SameLocationMapKeys(vs, es, id);
      SameLocationSpec(vs, id);
    }
  }

  // ---------------------------------------------------------------------
  // getOtherEdges, isUpperEdge

  /** e is another edge joining the columns above the ends of edge. */
  predicate IsOther(edge: Edge, e: Edge, sp: map<nat, seq<nat>>)
    requires edge.v1 in sp && edge.v2 in sp
  {
    var pts1 := sp[edge.v1];
    var pts2 := sp[edge.v2];
    e != edge && ((e.v1 in pts1 && e.v2 in pts2) || (e.v1 in pts2 && e.v2 in pts1))
  }

  /** getOtherEdges: bEdges filtered by IsOther. */
  function OtherEdges(edge: Edge, bEdges: seq<Edge>, sp: map<nat, seq<nat>>): (r: seq<Edge>)
    requires edge.v1 in sp && edge.v2 in sp
    ensures forall x :: x in r ==> x in bEdges
  {
    if bEdges == [] then []
    else
      var p := bEdges[..|bEdges| - 1];
      var last := bEdges[|bEdges| - 1];
      assert bEdges == p + [last];
      OtherEdges(edge, p, sp) + (if IsOther(edge, last, sp) then [last] else [])
  }

  lemma {:induction false} OtherEdgesSpec(edge: Edge, bEdges: seq<Edge>, sp: map<nat, seq<nat>>)
    requires edge.v1 in sp && edge.v2 in sp
    ensures forall x :: x in OtherEdges(edge, bEdges, sp) <==> x in bEdges && IsOther(edge, x, sp)
  {
    if bEdges != [] {
      var p := bEdges[..|bEdges| - 1];
      assert bEdges == p + [bEdges[|bEdges| - 1]];
      OtherEdgesSpec(edge, p, sp);
    }
  }

  /** With sPoints built from the geometry, the other edges are exactly the
      boundary edges, other than edge itself, whose ends sit at the (x, y)
      of the ends of edge (in either direction) without being those ends. */
  lemma OtherEdgesSameLocation(edge: Edge, bEdges: seq<Edge>, vs: seq<Vertex3>, x: Edge)
    requires EdgesIn(bEdges, vs) && edge in bEdges
    ensures edge.v1 in SameLocationMap(vs, bEdges) && edge.v2 in SameLocationMap(vs, bEdges)
    ensures x in OtherEdges(edge, bEdges, SameLocationMap(vs, bEdges)) <==>
        x in bEdges && x != edge &&
        ((x.v1 != edge.v1 && SameXY(vs[x.v1], vs[edge.v1]) && x.v2 != edge.v2 && SameXY(vs[x.v2], vs[edge.v2])) ||
         (x.v1 != edge.v2 && SameXY(vs[x.v1], vs[edge.v2]) && x.v2 != edge.v1 && SameXY(vs[x.v2], vs[edge.v1])))
  {
    var sp := SameLocationMap(vs, bEdges);
    SameLocationMapKeys(vs, bEdges, edge.v1);
    SameLocationMapKeys(vs, bEdges, edge.v2);
    OtherEdgesSpec(edge, bEdges, sp);
    SameLocationSpec(vs, edge.v1);
    SameLocationSpec(vs, edge.v2);
    assert sp[edge.v1] == SameLocation(vs, edge.v1) && sp[edge.v2] == SameLocation(vs, edge.v2);
  }

  /** The z of vertex id; ids are checked against the vertex list where
      the walls are built, and an id past its end counts as 0. */
  function Z(vs: seq<Vertex3>, id: nat): real {
    if id < |vs| then vs[id].z else 0.0
  }

  /** The scan of isUpperEdge from position i: no other edge's first end
      lies above z. */
  function NoneAbove(others: seq<Edge>, vs: seq<Vertex3>, z: real, i: nat): bool
    decreases |others| - i
  {
    if i >= |others| then true
    else if z < Z(vs, others[i].v1) then false
    else NoneAbove(others, vs, z, i + 1)
  }

  lemma {:induction false} NoneAboveSpec(others: seq<Edge>, vs: seq<Vertex3>, z: real, i: nat)
    ensures NoneAbove(others, vs, z, i) <==> forall k :: i <= k < |others| ==> Z(vs, others[k].v1) <= z
    decreases |others| - i
  {
    if i < |others| {
      NoneAboveSpec(others, vs, z, i + 1);
    }
  }

  function IsUpperEdge(edge: Edge, bEdges: seq<Edge>, sp: map<nat, seq<nat>>, vs: seq<Vertex3>): bool
    requires edge.v1 in sp && edge.v2 in sp
  {
    NoneAbove(OtherEdges(edge, bEdges, sp), vs, Z(vs, edge.v1), 0)
  }

  /** isUpperEdge holds exactly when no other edge over the same segment
      starts higher than edge does. */
  lemma IsUpperEdgeSpec(edge: Edge, bEdges: seq<Edge>, sp: map<nat, seq<nat>>, vs: seq<Vertex3>)
    requires edge.v1 in sp && edge.v2 in sp
    ensures IsUpperEdge(edge, bEdges, sp, vs) <==>
      forall o :: o in OtherEdges(edge, bEdges, sp) ==> Z(vs, o.v1) <= Z(vs, edge.v1)
  {
    var others := OtherEdges(edge, bEdges, sp);
    NoneAboveSpec(others, vs, Z(vs, edge.v1), 0);
    if !IsUpperEdge(edge, bEdges, sp, vs) {
      var k :| 0 <= k < |others| && Z(vs, others[k].v1) > Z(vs, edge.v1);
      assert others[k] in others;
    }
  }

  // ---------------------------------------------------------------------
  // filterVerticesBetweenEdges

  /** Sorted by z, ascending. */
  predicate SortedZ(t: seq<nat>, vs: seq<Vertex3>) {
    forall a, b :: 0 <= a < b < |t| ==> Z(vs, t[a]) <= Z(vs, t[b])
  }

  /** x placed before the first element strictly higher than it. */
  function InsertByZ(x: nat, t: seq<nat>, vs: seq<Vertex3>): (r: seq<nat>)
    ensures multiset(r) == multiset(t) + multiset{x}
  {
    if t == [] then [x]
    else if Z(vs, x) < Z(vs, t[0]) then [x] + t
    else
      assert t == [t[0]] + t[1..];
      [t[0]] + InsertByZ(x, t[1..], vs)
  }

  /** sort(function(a, b) { return z(a) - z(b); }): a stable sort by z,
      here an insertion sort. */
  function SortByZ(s: seq<nat>, vs: seq<Vertex3>): (r: seq<nat>)
    ensures multiset(r) == multiset(s)
  {
    if s == [] then []
    else
      var p := s[..|s| - 1];
      assert s == p + [s[|s| - 1]];
      InsertByZ(s[|s| - 1], SortByZ(p, vs), vs)
  }

  /** What InsertByZ places after the head of t is x or from the tail. */
  lemma InsertByZTail(x: nat, t: seq<nat>, vs: seq<Vertex3>, y: nat)
    requires t != [] && y in InsertByZ(x, t[1..], vs)
    ensures y == x || y in t[1..]
  {
    assert y in multiset(InsertByZ(x, t[1..], vs));
  }

  lemma {:induction false} InsertByZSorted(x: nat, t: seq<nat>, vs: seq<Vertex3>)
    requires SortedZ(t, vs)
    ensures SortedZ(InsertByZ(x, t, vs), vs)
  {
    if t != [] && Z(vs, t[0]) <= Z(vs, x) {
      var rest := InsertByZ(x, t[1..], vs);
      assert InsertByZ(x, t, vs) == [t[0]] + rest;
      InsertByZSorted(x, t[1..], vs);
      InsertByZAbove(x, t, vs);
      SortedCons(t[0], rest, vs);
    } else if t != [] {
      assert InsertByZ(x, t, vs) == [x] + t;
      forall b | 0 <= b < |t| ensures Z(vs, x) <= Z(vs, t[b]) {
        if b > 0 {
          assert Z(vs, t[0]) <= Z(vs, t[b]);
        }
      }
      SortedCons(x, t, vs);
    } else {
      assert InsertByZ(x, t, vs) == [x];
    }
  }

  /** Inserting x, which is not below the head of a sorted t, into its
      tail gives ids none of which is below that head. */
  lemma InsertByZAbove(x: nat, t: seq<nat>, vs: seq<Vertex3>)
    requires SortedZ(t, vs) && t != [] && Z(vs, t[0]) <= Z(vs, x)
    ensures forall b :: 0 <= b < |InsertByZ(x, t[1..], vs)| ==> Z(vs, t[0]) <= Z(vs, InsertByZ(x, t[1..], vs)[b])
  {
    var rest := InsertByZ(x, t[1..], vs);
    forall b | 0 <= b < |rest| ensures Z(vs, t[0]) <= Z(vs, rest[b]) {
      assert rest[b] in rest;
      InsertByZTail(x, t, vs, rest[b]);
      if rest[b] != x {
        var k :| 0 <= k < |t[1..]| && t[1..][k] == rest[b];
        assert t[k + 1] == rest[b];
      }
    }
  }

  /** A head not above any element of a sorted list keeps it sorted. */
  lemma SortedCons(h: nat, rest: seq<nat>, vs: seq<Vertex3>)
    requires SortedZ(rest, vs) && forall b :: 0 <= b < |rest| ==> Z(vs, h) <= Z(vs, rest[b])
    ensures SortedZ([h] + rest, vs)
  {
    var r := [h] + rest;
    forall a, b | 0 <= a < b < |r| ensures Z(vs, r[a]) <= Z(vs, r[b]) {
      assert r[b] == rest[b - 1];
      if a > 0 {
        assert r[a] == rest[a - 1];
      }
    }
  }

  /** The sort leaves the ids ascending by z. */
  lemma {:induction false} SortByZSorted(s: seq<nat>, vs: seq<Vertex3>)
    ensures SortedZ(SortByZ(s, vs), vs)
  {
    if s != [] {
      var p := s[..|s| - 1];
      SortByZSorted(p, vs);
      InsertByZSorted(s[|s| - 1], SortByZ(p, vs), vs);
    }
  }

  /** The sort keeps the ids of the side. */
  lemma SortByZHas(s: seq<nat>, vs: seq<Vertex3>, x: nat)
    ensures x in SortByZ(s, vs) <==> x in s
  {
    assert x in SortByZ(s, vs) <==> x in multiset(SortByZ(s, vs));
  }

  /** The ids of t whose z is exactly z, in the order of t. */
  function AtZ(t: seq<nat>, vs: seq<Vertex3>, z: real): seq<nat> {
    if t == [] then []
    else (if Z(vs, t[0]) == z then [t[0]] else []) + AtZ(t[1..], vs, z)
  }

  /** Picking the ids of one z distributes over concatenation. */
  lemma {:induction false} AtZAppend(a: seq<nat>, b: seq<nat>, vs: seq<Vertex3>, z: real)
    ensures AtZ(a + b, vs, z) == AtZ(a, vs, z) + AtZ(b, vs, z)
    decreases |a|
  {
    if a != [] {
      var ab := a + b;
      assert ab[0] == a[0] && ab[1..] == a[1..] + b;
      AtZAppend(a[1..], b, vs, z);
      var h := if Z(vs, a[0]) == z then [a[0]] else [];
      var x, y := AtZ(a[1..], vs, z), AtZ(b, vs, z);
      assert h + (x + y) == (h + x) + y;
    } else {
      assert a + b == b;
    }
  }

  /** When every id of t lies above z, none of them is at z. */
  lemma {:induction false} AtZBelow(t: seq<nat>, vs: seq<Vertex3>, z: real)
    requires forall b :: 0 <= b < |t| ==> z < Z(vs, t[b])
    ensures AtZ(t, vs, z) == []
  {
    if t != [] {
      AtZBelow(t[1..], vs, z);
    }
  }

  /** Into a sorted list, x goes after every id of its own z. */
  lemma {:induction false} InsertByZAtZ(x: nat, t: seq<nat>, vs: seq<Vertex3>, z: real)
    requires SortedZ(t, vs)
    ensures AtZ(InsertByZ(x, t, vs), vs, z) == AtZ(t, vs, z) + AtZ([x], vs, z)
  {
    assert [x][1..] == [];
    if t == [] {
      assert InsertByZ(x, t, vs) == [x];
    } else if Z(vs, x) < Z(vs, t[0]) {
      var r := [x] + t;
      assert InsertByZ(x, t, vs) == r && r[0] == x && r[1..] == t;
      if Z(vs, x) == z {
        forall b | 0 <= b < |t| ensures z < Z(vs, t[b]) {
          if b > 0 {
            assert Z(vs, t[0]) <= Z(vs, t[b]);
          }
        }
        AtZBelow(t, vs, z);
      }
    } else {
      var rest := InsertByZ(x, t[1..], vs);
      var r := [t[0]] + rest;
      assert InsertByZ(x, t, vs) == r && r[0] == t[0] && r[1..] == rest;
      assert SortedZ(t[1..], vs) by {
        forall a, b | 0 <= a < b < |t[1..]| ensures Z(vs, t[1..][a]) <= Z(vs, t[1..][b]) {
          assert t[1..][a] == t[a + 1] && t[1..][b] == t[b + 1];
        }
      }
      InsertByZAtZ(x, t[1..], vs, z);
      var h := if Z(vs, t[0]) == z then [t[0]] else [];
      var p, q := AtZ(t[1..], vs, z), AtZ([x], vs, z);
      assert h + (p + q) == (h + p) + q;
    }
  }

  /** The sort is stable: the ids of any one z keep their order in the
      side. */
  lemma {:induction false} SortByZStable(s: seq<nat>, vs: seq<Vertex3>, z: real)
    ensures AtZ(SortByZ(s, vs), vs, z) == AtZ(s, vs, z)
  {
    if s != [] {
      var p := s[..|s| - 1];
      assert s == p + [s[|s| - 1]];
      SortByZStable(p, vs, z);
      SortByZSorted(p, vs);
      InsertByZAtZ(s[|s| - 1], SortByZ(p, vs), vs, z);
      AtZAppend(p, [s[|s| - 1]], vs, z);
    }
  }

  /** Edges joining a vertex of one side to a vertex of the other. */
  predicate Joins(e: Edge, s0: seq<nat>, s1: seq<nat>) {
    (e.v1 in s0 && e.v2 in s1) || (e.v1 in s1 && e.v2 in s0)
  }

  /** lEdges: the boundary edges between the two sides. */
  function LocalEdges(s0: seq<nat>, s1: seq<nat>, bEdges: seq<Edge>): (r: seq<Edge>)
  {
    if bEdges == [] then []
    else
      var last := bEdges[|bEdges| - 1];
      LocalEdges(s0, s1, bEdges[..|bEdges| - 1]) + (if Joins(last, s0, s1) then [last] else [])
  }

  lemma {:induction false} LocalEdgesSpec(s0: seq<nat>, s1: seq<nat>, bEdges: seq<Edge>)
    ensures forall e :: e in LocalEdges(s0, s1, bEdges) <==> e in bEdges && Joins(e, s0, s1)
  {
    if bEdges != [] {
      var p := bEdges[..|bEdges| - 1];
      assert bEdges == p + [bEdges[|bEdges| - 1]];
      LocalEdgesSpec(s0, s1, p);
    }
  }

  /** eVerts: the ends of the edges, flattened. */
  function EdgeVertices(es: seq<Edge>): seq<nat> {
    if es == [] then []
    else
      var last := es[|es| - 1];
      EdgeVertices(es[..|es| - 1]) + [last.v1, last.v2]
  }

  lemma {:induction false} EdgeVerticesSpec(es: seq<Edge>)
    ensures forall x :: x in EdgeVertices(es) <==> exists e :: e in es && (e.v1 == x || e.v2 == x)
  {
    if es != [] {
      var p := es[..|es| - 1];
      assert es == p + [es[|es| - 1]];
      EdgeVerticesSpec(p);
      forall x | exists e :: e in es && (e.v1 == x || e.v2 == x)
        ensures x in EdgeVertices(es)
      {
        var e :| e in es && (e.v1 == x || e.v2 == x);
        if e != es[|es| - 1] {
          assert e in p;
        }
      }
    }
  }

  /** The shift loop: drop the front while it is not an edge vertex. */
  function DropUntil(s: seq<nat>, ev: seq<nat>): seq<nat> {
    if s == [] then [] else if s[0] in ev then s else DropUntil(s[1..], ev)
  }

  /** The pop loop: drop the back while it is not an edge vertex. */
  function PopUntil(s: seq<nat>, ev: seq<nat>): seq<nat> {
    if s == [] then [] else if s[|s| - 1] in ev then s else PopUntil(s[..|s| - 1], ev)
  }

  function Trim(s: seq<nat>, ev: seq<nat>): seq<nat> {
    PopUntil(DropUntil(s, ev), ev)
  }

  lemma {:induction false} DropUntilSpec(s: seq<nat>, ev: seq<nat>) returns (a: nat)
    requires HasEdgeVertex(s, ev)
    ensures a < |s| && DropUntil(s, ev) == s[a..] && s[a] in ev
    ensures forall k :: 0 <= k < a ==> s[k] !in ev
  {
    if s[0] in ev {
      a := 0;
    } else {
      var k :| 0 <= k < |s| && s[k] in ev;
      assert s[1..][k - 1] == s[k];
      var a' := DropUntilSpec(s[1..], ev);
      a := a' + 1;
      assert s[1..][a'..] == s[a..];
      forall k | 0 <= k < a ensures s[k] !in ev {
        if k > 0 {
          assert s[k] == s[1..][k - 1];
        }
      }
    }
  }

  lemma {:induction false} PopUntilSpec(s: seq<nat>, ev: seq<nat>) returns (b: nat)
    requires |s| > 0 && s[0] in ev
    ensures b < |s| && PopUntil(s, ev) == s[..b + 1] && s[b] in ev
    ensures forall k :: b < k < |s| ==> s[k] !in ev
  {
    if s[|s| - 1] in ev {
      b := |s| - 1;
    } else {
      var p := s[..|s| - 1];
      b := PopUntilSpec(p, ev);
      assert p[..b + 1] == s[..b + 1];
      forall k | b < k < |s| ensures s[k] !in ev {
        if k < |s| - 1 {
          assert s[k] == p[k];
        }
      }
    }
  }

  /** The bounds of the stretch Trim keeps. */
  lemma TrimBounds(s: seq<nat>, ev: seq<nat>) returns (a: nat, b: nat)
    requires HasEdgeVertex(s, ev)
    ensures a <= b < |s| && Trim(s, ev) == s[a..b + 1] && s[a] in ev && s[b] in ev
    ensures forall k :: 0 <= k < a ==> s[k] !in ev
    ensures forall k :: b < k < |s| ==> s[k] !in ev
  {
    a := DropUntilSpec(s, ev);
    var d := s[a..];
    var c := PopUntilSpec(d, ev);
    b := a + c;
    assert d[..c + 1] == s[a..b + 1];
    forall k | b < k < |s| ensures s[k] !in ev {
      assert s[k] == d[k - a];
    }
  }

  /** filterVerticesBetweenEdges keeps, of the sorted side, the stretch
      from its first to its last edge vertex: both ends are edge vertices,
      and nothing cut off is one. */
  lemma TrimSpec(s: seq<nat>, ev: seq<nat>)
    requires HasEdgeVertex(s, ev)
    ensures exists a, b ::
      (0 <= a <= b < |s| && Trim(s, ev) == s[a..b + 1] && s[a] in ev && s[b] in ev &&
       (forall k :: 0 <= k < a ==> s[k] !in ev) && (forall k :: b < k < |s| ==> s[k] !in ev))
  {
    var a, b := TrimBounds(s, ev);
  }

  /** Trim keeps every edge vertex of the side and adds nothing. */
  lemma TrimHas(s: seq<nat>, ev: seq<nat>, x: nat)
    requires HasEdgeVertex(s, ev)
    ensures x in s && x in ev ==> x in Trim(s, ev)
    ensures x in Trim(s, ev) ==> x in s
  {
    var a, b := TrimBounds(s, ev);
    if x in s && x in ev {
      var k :| 0 <= k < |s| && s[k] == x;
      assert Trim(s, ev)[k - a] == x;
    }
  }

  /** A stretch of a sorted side is sorted. */
  lemma TrimSorted(t: seq<nat>, ev: seq<nat>, vs: seq<Vertex3>)
    requires SortedZ(t, vs) && HasEdgeVertex(t, ev)
    ensures SortedZ(Trim(t, ev), vs)
  {
    var a, b := TrimBounds(t, ev);
    var c := t[a..b + 1];
    forall i, j | 0 <= i < j < |c| ensures Z(vs, c[i]) <= Z(vs, c[j]) {
      assert c[i] == t[a + i] && c[j] == t[a + j];
    }
  }

  /** The edge vertices of the two sides, as filterVerticesBetweenEdges
      computes them from the sorted sides. */
  function EVerts(s0: seq<nat>, s1: seq<nat>, bEdges: seq<Edge>, vs: seq<Vertex3>): seq<nat> {
    EdgeVertices(LocalEdges(SortByZ(s0, vs), SortByZ(s1, vs), bEdges))
  }

  /** Some element of t is an edge vertex. */
  predicate HasEdgeVertex(t: seq<nat>, ev: seq<nat>) {
    exists k :: 0 <= k < |t| && t[k] in ev
  }

  lemma HasEdgeVertexOf(t: seq<nat>, ev: seq<nat>, x: nat)
    requires x in t && x in ev
    ensures HasEdgeVertex(t, ev)
  {
    var k :| 0 <= k < |t| && t[k] == x;
  }

  /** A boundary edge joining the two sides puts an edge vertex on each
      sorted side. */
  lemma JoinedSides(s0: seq<nat>, s1: seq<nat>, bEdges: seq<Edge>, vs: seq<Vertex3>, e: Edge)
    requires e in bEdges && Joins(e, s0, s1)
    ensures HasEdgeVertex(SortByZ(s0, vs), EVerts(s0, s1, bEdges, vs))
    ensures HasEdgeVertex(SortByZ(s1, vs), EVerts(s0, s1, bEdges, vs))
  {
    var t0 := SortByZ(s0, vs);
    var t1 := SortByZ(s1, vs);
    SortByZHas(s0, vs, e.v1);
    SortByZHas(s0, vs, e.v2);
    SortByZHas(s1, vs, e.v1);
    SortByZHas(s1, vs, e.v2);
    var l := LocalEdges(t0, t1, bEdges);
    LocalEdgesSpec(t0, t1, bEdges);
    assert e in l;
    EdgeVerticesSpec(l);
    var ev := EdgeVertices(l);
    assert e.v1 in ev && e.v2 in ev;
    if e.v1 in s0 && e.v2 in s1 {
      HasEdgeVertexOf(t0, ev, e.v1);
      HasEdgeVertexOf(t1, ev, e.v2);
    } else {
      HasEdgeVertexOf(t0, ev, e.v2);
      HasEdgeVertexOf(t1, ev, e.v1);
    }
  }

  /** One column: the sorted side trimmed to the edge vertices. */
  function Column(s: seq<nat>, ev: seq<nat>, vs: seq<Vertex3>): seq<nat> {
    Trim(SortByZ(s, vs), ev)
  }

  /** The shift and pop loops of filterVerticesBetweenEdges on one sorted
      side; the edge vertex on the side ends both loops. */
  method TrimSide(t: seq<nat>, ev: seq<nat>) returns (r: seq<nat>)
    requires HasEdgeVertex(t, ev)
    ensures r == Trim(t, ev)
  {
    r := t;
    while r[0] !in ev
      invariant exists k :: 0 <= k < |r| && r[k] in ev
      invariant DropUntil(r, ev) == DropUntil(t, ev)
      decreases |r|
    {
      var k :| 0 <= k < |r| && r[k] in ev;
      assert r[1..][k - 1] == r[k];
      r := r[1..];
    }
    while r[|r| - 1] !in ev
      invariant |r| > 0 && r[0] in ev
      invariant PopUntil(r, ev) == Trim(t, ev)
      decreases |r|
    {
      r := r[..|r| - 1];
    }
  }

  /** filterVerticesBetweenEdges: both sides sorted by z, then trimmed to
      the stretch between their first and last vertices on an edge joining
      the sides. The source loops forever when a side holds no such vertex;
      a joining boundary edge rules that out. */
  method FilterVerticesBetweenEdges(s0: seq<nat>, s1: seq<nat>, bEdges: seq<Edge>, vs: seq<Vertex3>)
    returns (r0: seq<nat>, r1: seq<nat>)
    requires exists e :: e in bEdges && Joins(e, s0, s1)
    ensures r0 == Column(s0, EVerts(s0, s1, bEdges, vs), vs)
    ensures r1 == Column(s1, EVerts(s0, s1, bEdges, vs), vs)
  {
    var t0 := SortByZ(s0, vs);
    var t1 := SortByZ(s1, vs);
    var e :| e in bEdges && Joins(e, s0, s1);
    JoinedSides(s0, s1, bEdges, vs, e);
    var ev := EdgeVertices(LocalEdges(t0, t1, bEdges));
    r0 := TrimSide(t0, ev);
    r1 := TrimSide(t1, ev);
  }

  /** A column of a side with an edge vertex is a non-empty stretch of the
      side sorted by z that starts and ends at edge vertices. */
  lemma ColumnShape(s: seq<nat>, ev: seq<nat>, vs: seq<Vertex3>)
    requires HasEdgeVertex(SortByZ(s, vs), ev)
    ensures |Column(s, ev, vs)| > 0
    ensures Column(s, ev, vs)[0] in ev && Column(s, ev, vs)[|Column(s, ev, vs)| - 1] in ev
    ensures SortedZ(Column(s, ev, vs), vs)
  {
    SortByZSorted(s, vs);
    TrimShape(SortByZ(s, vs), ev, vs);
  }

  /** Trimming a sorted side with an edge vertex leaves a non-empty sorted
      stretch that starts and ends at edge vertices. */
  lemma TrimShape(t: seq<nat>, ev: seq<nat>, vs: seq<Vertex3>)
    requires SortedZ(t, vs) && HasEdgeVertex(t, ev)
    ensures |Trim(t, ev)| > 0 && Trim(t, ev)[0] in ev && Trim(t, ev)[|Trim(t, ev)| - 1] in ev
    ensures SortedZ(Trim(t, ev), vs)
  {
    var a, b := TrimBounds(t, ev);
    var c := t[a..b + 1];
    assert c[0] == t[a] && c[|c| - 1] == t[b];
    TrimSorted(t, ev, vs);
  }

  /** The column keeps every edge vertex of its side and adds nothing. */
  lemma ColumnHas(s: seq<nat>, ev: seq<nat>, vs: seq<Vertex3>, x: nat)
    requires HasEdgeVertex(SortByZ(s, vs), ev)
    ensures x in s && x in ev ==> x in Column(s, ev, vs)
    ensures x in Column(s, ev, vs) ==> x in s
  {
    SortByZHas(s, vs, x);
    TrimHas(SortByZ(s, vs), ev, x);
  }

  lemma ColumnIn(s: seq<nat>, ev: seq<nat>, vs: seq<Vertex3>)
    requires IdsIn(s, vs) && HasEdgeVertex(SortByZ(s, vs), ev)
    ensures IdsIn(Column(s, ev, vs), vs)
  {
    forall x | x in Column(s, ev, vs) ensures x < |vs| {
      ColumnHas(s, ev, vs, x);
    }
  }

  // ---------------------------------------------------------------------
  // addSideFromEdge, addSideFromEdges, addSides

  /** The triangles from column c0 to the foot of c1: the first n. */
  function LeftStrip(c0: seq<nat>, c1: seq<nat>, n: nat): seq<Face>
    requires n < |c0| && |c1| > 0
  {
    if n == 0 then [] else LeftStrip(c0, c1, n - 1) + [Face(c0[n], c0[n - 1], c1[0])]
  }

  /** The triangles from column c1 to the top of c0: the first n. */
  function RightStrip(c0: seq<nat>, c1: seq<nat>, n: nat): seq<Face>
    requires |c0| > 0 && n < |c1|
  {
    if n == 0 then [] else RightStrip(c0, c1, n - 1) + [Face(c1[n], c0[|c0| - 1], c1[n - 1])]
  }

  /** One more triangle of the left strip after a start list. */
  lemma LeftStripNext(start: seq<Face>, faces: seq<Face>, c0: seq<nat>, c1: seq<nat>, i: nat)
    requires 0 < i < |c0| && |c1| > 0 && faces == start + LeftStrip(c0, c1, i - 1)
    ensures faces + [Face(c0[i], c0[i - 1], c1[0])] == start + LeftStrip(c0, c1, i)
  {
    var a := LeftStrip(c0, c1, i - 1);
    var f := [Face(c0[i], c0[i - 1], c1[0])];
    assert LeftStrip(c0, c1, i) == a + f;
    assert (start + a) + f == start + (a + f);
  }

  /** One more triangle of the right strip after a start list. */
  lemma RightStripNext(start: seq<Face>, faces: seq<Face>, c0: seq<nat>, c1: seq<nat>, i: nat)
    requires |c0| > 0 && 0 < i < |c1| && faces == start + RightStrip(c0, c1, i - 1)
    ensures faces + [Face(c1[i], c0[|c0| - 1], c1[i - 1])] == start + RightStrip(c0, c1, i)
  {
    var a := RightStrip(c0, c1, i - 1);
    var f := [Face(c1[i], c0[|c0| - 1], c1[i - 1])];
    assert RightStrip(c0, c1, i) == a + f;
    assert (start + a) + f == start + (a + f);
  }

  /** The wall between two columns. */
  function Wall(c0: seq<nat>, c1: seq<nat>): seq<Face>
    requires |c0| > 0 && |c1| > 0
  {
    LeftStrip(c0, c1, |c0| - 1) + RightStrip(c0, c1, |c1| - 1)
  }

  lemma {:induction false} LeftStripSpec(c0: seq<nat>, c1: seq<nat>, n: nat)
    requires n < |c0| && |c1| > 0
    ensures |LeftStrip(c0, c1, n)| == n
    ensures forall i :: 0 <= i < n ==> LeftStrip(c0, c1, n)[i] == Face(c0[i + 1], c0[i], c1[0])
  {
    if n > 0 {
      LeftStripSpec(c0, c1, n - 1);
    }
  }

  lemma {:induction false} RightStripSpec(c0: seq<nat>, c1: seq<nat>, n: nat)
    requires |c0| > 0 && n < |c1|
    ensures |RightStrip(c0, c1, n)| == n
    ensures forall i :: 0 <= i < n ==> RightStrip(c0, c1, n)[i] == Face(c1[i + 1], c0[|c0| - 1], c1[i])
  {
    if n > 0 {
      RightStripSpec(c0, c1, n - 1);
    }
  }

  /** The wall is a strip of |c0| + |c1| - 2 triangles: the first climb
      column c0, each over one step of it with its third corner at the foot
      of c1; the rest climb c1, each with its third corner at the top of c0.
      Every corner is a vertex of a column. */
  lemma WallSpec(c0: seq<nat>, c1: seq<nat>)
    requires |c0| > 0 && |c1| > 0
    ensures |Wall(c0, c1)| == |c0| + |c1| - 2
    ensures forall i :: 0 <= i < |c0| - 1 ==> Wall(c0, c1)[i] == Face(c0[i + 1], c0[i], c1[0])
    ensures forall i :: 0 <= i < |c1| - 1 ==> Wall(c0, c1)[|c0| - 1 + i] == Face(c1[i + 1], c0[|c0| - 1], c1[i])
    ensures forall f :: f in Wall(c0, c1) ==>
      (f.a in c0 || f.a in c1) && (f.b in c0 || f.b in c1) && (f.c in c0 || f.c in c1)
  {
    WallAt(c0, c1);
    var w := Wall(c0, c1);
    forall f | f in w ensures (f.a in c0 || f.a in c1) && (f.b in c0 || f.b in c1) && (f.c in c0 || f.c in c1) {
      var i :| 0 <= i < |w| && w[i] == f;
      if i < |c0| - 1 {
        assert f == Face(c0[i + 1], c0[i], c1[0]);
        assert c0[i + 1] in c0 && c0[i] in c0 && c1[0] in c1;
      } else {
        var j := i - (|c0| - 1);
        assert f == Face(c1[j + 1], c0[|c0| - 1], c1[j]);
        assert c1[j + 1] in c1 && c0[|c0| - 1] in c0 && c1[j] in c1;
      }
    }
  }

  /** The triangles of the wall, position by position. */
  lemma WallAt(c0: seq<nat>, c1: seq<nat>)
    requires |c0| > 0 && |c1| > 0
    ensures |Wall(c0, c1)| == |c0| + |c1| - 2
    ensures forall i :: 0 <= i < |c0| - 1 ==> Wall(c0, c1)[i] == Face(c0[i + 1], c0[i], c1[0])
    ensures forall i :: 0 <= i < |c1| - 1 ==> Wall(c0, c1)[|c0| - 1 + i] == Face(c1[i + 1], c0[|c0| - 1], c1[i])
  {
    LeftStripSpec(c0, c1, |c0| - 1);
    RightStripSpec(c0, c1, |c1| - 1);
    var l := LeftStrip(c0, c1, |c0| - 1);
    var r := RightStrip(c0, c1, |c1| - 1);
    assert Wall(c0, c1) == l + r;
    assert forall i :: 0 <= i < |l| ==> (l + r)[i] == l[i];
    assert forall i :: 0 <= i < |r| ==> (l + r)[|l| + i] == r[i];
  }

  /** sPoints has both ends of every edge as keys. */
  predicate Keyed(bEdges: seq<Edge>, sp: map<nat, seq<nat>>) {
    forall e :: e in bEdges ==> e.v1 in sp && e.v2 in sp
  }

  /** The faces addSideFromEdge appends for edge: none when a column came
      out empty or both are single vertices. */
  function SideFaces(edge: Edge, bEdges: seq<Edge>, sp: map<nat, seq<nat>>, vs: seq<Vertex3>): seq<Face>
    requires edge.v1 in sp && edge.v2 in sp
  {
    var s0 := [edge.v1] + sp[edge.v1];
    var s1 := [edge.v2] + sp[edge.v2];
    var ev := EVerts(s0, s1, bEdges, vs);
    var c0 := Column(s0, ev, vs);
    var c1 := Column(s1, ev, vs);
    if (|c0| == 1 && |c1| == 1) || |c0| == 0 || |c1| == 0 then [] else Wall(c0, c1)
  }

  /** The two push loops of addSideFromEdge. */
  method PushWall(m: Mesh, c0: seq<nat>, c1: seq<nat>) returns (r: Mesh)
    requires |c0| > 0 && |c1| > 0
    ensures r == Mesh(m.vertices, m.faces + Wall(c0, c1))
  {
    var faces := m.faces;
    var i := 1;
    while i < |c0|
      invariant 1 <= i <= |c0|
      invariant faces == m.faces + LeftStrip(c0, c1, i - 1)
    {
      LeftStripNext(m.faces, faces, c0, c1, i);
      faces := faces + [Face(c0[i], c0[i - 1], c1[0])];
      i := i + 1;
    }
    ghost var left := faces;
    i := 1;
    while i < |c1|
      invariant 1 <= i <= |c1|
      invariant faces == left + RightStrip(c0, c1, i - 1)
    {
      RightStripNext(left, faces, c0, c1, i);
      faces := faces + [Face(c1[i], c0[|c0| - 1], c1[i - 1])];
      i := i + 1;
    }
    r := Mesh(m.vertices, faces);
  }

  method AddSideFromEdge(edge: Edge, sp: map<nat, seq<nat>>, m: Mesh, bEdges: seq<Edge>) returns (r: Mesh)
    requires edge in bEdges && edge.v1 in sp && edge.v2 in sp
    ensures r == Mesh(m.vertices, m.faces + SideFaces(edge, bEdges, sp, m.vertices))
  {
    var s0 := [edge.v1] + sp[edge.v1];
    var s1 := [edge.v2] + sp[edge.v2];
    assert Joins(edge, s0, s1);
    var c0, c1 := FilterVerticesBetweenEdges(s0, s1, bEdges, m.vertices);
    if (|c0| == 1 && |c1| == 1) || |c0| == 0 || |c1| == 0 {
      assert m.faces + [] == m.faces;
      return m;
    }
    r := PushWall(m, c0, c1);
  }

  /** The walls of the first n boundary edges, for the upper ones. */
  function WallsUpTo(bEdges: seq<Edge>, sp: map<nat, seq<nat>>, vs: seq<Vertex3>, n: nat): seq<Face>
    requires Keyed(bEdges, sp) && n <= |bEdges|
  {
    if n == 0 then []
    else
      WallsUpTo(bEdges, sp, vs, n - 1) + WallOf(bEdges, sp, vs, n - 1)
  }

  /** The faces the loop of addSideFromEdges adds for edge i. */
  function WallOf(bEdges: seq<Edge>, sp: map<nat, seq<nat>>, vs: seq<Vertex3>, i: nat): seq<Face>
    requires Keyed(bEdges, sp) && i < |bEdges|
  {
    var e := bEdges[i];
    assert e in bEdges;
    if IsUpperEdge(e, bEdges, sp, vs) then SideFaces(e, bEdges, sp, vs) else []
  }

  method AddSideFromEdges(m: Mesh, bEdges: seq<Edge>, sp: map<nat, seq<nat>>) returns (r: Mesh)
    requires Keyed(bEdges, sp)
    ensures r == Mesh(m.vertices, m.faces + WallsUpTo(bEdges, sp, m.vertices, |bEdges|))
  {
    var faces := m.faces;
    var i := 0;
    assert WallsUpTo(bEdges, sp, m.vertices, 0) == [];
    while i < |bEdges|
      invariant 0 <= i <= |bEdges|
      invariant faces == m.faces + WallsUpTo(bEdges, sp, m.vertices, i)
    {
      var next := AddWallOfEdge(m.vertices, faces, bEdges, sp, i);
      WallsUpToSnoc(bEdges, sp, m.vertices, i, m.faces, faces, next);
      faces := next;
      i := i + 1;
    }
    r := Mesh(m.vertices, faces);
  }

  lemma AppendAssoc(a: seq<Face>, b: seq<Face>, c: seq<Face>)
    ensures (a + b) + c == a + (b + c)
  {
  }

  lemma WallsUpToSnoc(bEdges: seq<Edge>, sp: map<nat, seq<nat>>, vs: seq<Vertex3>, i: nat,
                      start: seq<Face>, faces: seq<Face>, next: seq<Face>)
    requires Keyed(bEdges, sp) && i < |bEdges|
    requires faces == start + WallsUpTo(bEdges, sp, vs, i)
    requires next == faces + WallOf(bEdges, sp, vs, i)
    ensures next == start + WallsUpTo(bEdges, sp, vs, i + 1)
  {
    assert WallsUpTo(bEdges, sp, vs, i + 1) == WallsUpTo(bEdges, sp, vs, i) + WallOf(bEdges, sp, vs, i);
    AppendAssoc(start, WallsUpTo(bEdges, sp, vs, i), WallOf(bEdges, sp, vs, i));
  }

  /** One turn of the loop of addSideFromEdges: the wall of edge i, if it is an upper edge. */
  method AddWallOfEdge(vs: seq<Vertex3>, faces: seq<Face>, bEdges: seq<Edge>, sp: map<nat, seq<nat>>, i: nat)
    returns (r: seq<Face>)
    requires Keyed(bEdges, sp) && i < |bEdges|
    ensures r == faces + WallOf(bEdges, sp, vs, i)
  {
    var e := bEdges[i];
    assert e in bEdges;
    r := faces;
    if IsUpperEdge(e, bEdges, sp, vs) {
      var next := AddSideFromEdge(e, sp, Mesh(vs, faces), bEdges);
      r := next.faces;
    }
  }

  /** Every corner of a wall face is a vertex of the mesh. */
  lemma SideFacesIn(edge: Edge, bEdges: seq<Edge>, sp: map<nat, seq<nat>>, vs: seq<Vertex3>)
    requires PointsMapIn(sp, vs) && edge in bEdges && edge.v1 in sp && edge.v2 in sp
    ensures forall f :: f in SideFaces(edge, bEdges, sp, vs) ==> f.a < |vs| && f.b < |vs| && f.c < |vs|
  {
    var s0 := [edge.v1] + sp[edge.v1];
    var s1 := [edge.v2] + sp[edge.v2];
    assert Joins(edge, s0, s1);
    JoinedSides(s0, s1, bEdges, vs, edge);
    var ev := EVerts(s0, s1, bEdges, vs);
    SideIn(edge.v1, sp, vs);
    SideIn(edge.v2, sp, vs);
    ColumnIn(s0, ev, vs);
    ColumnIn(s1, ev, vs);
    var c0 := Column(s0, ev, vs);
    var c1 := Column(s1, ev, vs);
    if |c0| > 0 && |c1| > 0 {
      WallIn(c0, c1, vs);
    }
  }

  lemma SideIn(id: nat, sp: map<nat, seq<nat>>, vs: seq<Vertex3>)
    requires PointsMapIn(sp, vs) && id in sp
    ensures IdsIn([id] + sp[id], vs)
  {
  }

  lemma WallIn(c0: seq<nat>, c1: seq<nat>, vs: seq<Vertex3>)
    requires |c0| > 0 && |c1| > 0 && IdsIn(c0, vs) && IdsIn(c1, vs)
    ensures forall f :: f in Wall(c0, c1) ==> f.a < |vs| && f.b < |vs| && f.c < |vs|
  {
    WallSpec(c0, c1);
  }

  /** Every corner of every face in fs is a vertex of vs. */
  predicate FacesIn(fs: seq<Face>, vs: seq<Vertex3>) {
    forall f :: f in fs ==> f.a < |vs| && f.b < |vs| && f.c < |vs|
  }

  lemma FacesInConcat(a: seq<Face>, b: seq<Face>, vs: seq<Vertex3>)
    requires FacesIn(a, vs) && FacesIn(b, vs)
    ensures FacesIn(a + b, vs)
  {
  }

  lemma WallOfIn(bEdges: seq<Edge>, sp: map<nat, seq<nat>>, vs: seq<Vertex3>, i: nat)
    requires PointsMapIn(sp, vs) && Keyed(bEdges, sp) && i < |bEdges|
    ensures FacesIn(WallOf(bEdges, sp, vs, i), vs)
  {
    assert bEdges[i] in bEdges;
    SideFacesIn(bEdges[i], bEdges, sp, vs);
  }

  lemma WallsUpToIn(bEdges: seq<Edge>, sp: map<nat, seq<nat>>, vs: seq<Vertex3>, n: nat)
    requires PointsMapIn(sp, vs) && Keyed(bEdges, sp) && n <= |bEdges|
    ensures FacesIn(WallsUpTo(bEdges, sp, vs, n), vs)
  {
    assert WallsUpTo(bEdges, sp, vs, 0) == [];
    var i := 0;
    while i < n
      invariant i <= n && FacesIn(WallsUpTo(bEdges, sp, vs, i), vs)
    {
      WallsUpToInNext(bEdges, sp, vs, i);
      i := i + 1;
    }
  }

  lemma WallsUpToInNext(bEdges: seq<Edge>, sp: map<nat, seq<nat>>, vs: seq<Vertex3>, i: nat)
    requires PointsMapIn(sp, vs) && Keyed(bEdges, sp) && i < |bEdges|
    requires FacesIn(WallsUpTo(bEdges, sp, vs, i), vs)
    ensures FacesIn(WallsUpTo(bEdges, sp, vs, i + 1), vs)
  {
    WallOfIn(bEdges, sp, vs, i);
    assert WallsUpTo(bEdges, sp, vs, i + 1) == WallsUpTo(bEdges, sp, vs, i) + WallOf(bEdges, sp, vs, i);
    FacesInConcat(WallsUpTo(bEdges, sp, vs, i), WallOf(bEdges, sp, vs, i), vs);
  }

  /** The boundary of a mesh whose faces name vertices. */
  lemma BoundaryIn(m: Mesh)
    requires FacesValid(m)
    ensures EdgesIn(BoundaryFold(Sides(m.faces)), m.vertices)
  {
    BoundaryInvariant(Sides(m.faces));
    SidesValid(m.faces, |m.faces|, |m.vertices|);
  }

  /** The map addSides builds has a key for each end of a boundary edge. */
  lemma BoundaryKeyed(m: Mesh)
    requires FacesValid(m)
    ensures EdgesIn(BoundaryFold(Sides(m.faces)), m.vertices)
    ensures Keyed(BoundaryFold(Sides(m.faces)), SameLocationMap(m.vertices, BoundaryFold(Sides(m.faces))))
  {
    var b := BoundaryFold(Sides(m.faces));
    BoundaryIn(m);
    forall e | e in b ensures e.v1 in SameLocationMap(m.vertices, b) && e.v2 in SameLocationMap(m.vertices, b) {
      SameLocationMapKeys(m.vertices, b, e.v1);
      SameLocationMapKeys(m.vertices, b, e.v2);
    }
  }

  /** The walls addSides appends to a mesh. */
  function SideWalls(m: Mesh): seq<Face>
    requires FacesValid(m)
  {
    var b := BoundaryFold(Sides(m.faces));
    BoundaryKeyed(m);
    WallsUpTo(b, SameLocationMap(m.vertices, b), m.vertices, |b|)
  }

  /** addSides: the boundary edges, the map of same-location vertices, and
      the walls of the upper boundary edges appended to the faces. */
  method AddSides(m: Mesh) returns (r: Mesh)
    requires FacesValid(m)
    ensures r == Mesh(m.vertices, m.faces + SideWalls(m))
  {
    var bEdges := GetBoundaryEdges(m);
    BoundaryIn(m);
    BoundaryKeyed(m);
    var sp := GetPointsSame2DLocation(m, bEdges);
    r := AddSideFromEdges(m, bEdges, sp);
  }

  /** addSides keeps the vertices and the old faces, and every new face
      names vertices of the mesh. */
  lemma SideWallsValid(m: Mesh)
    requires FacesValid(m)
    ensures FacesValid(Mesh(m.vertices, m.faces + SideWalls(m)))
  {
    var b := BoundaryFold(Sides(m.faces));
    BoundaryKeyed(m);
    SameLocationMapIn(m.vertices, b);
    WallsUpToIn(b, SameLocationMap(m.vertices, b), m.vertices, |b|);
    FacesInConcat(m.faces, SideWalls(m), m.vertices);
  }
}
