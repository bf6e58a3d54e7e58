/** The triangle mesh of js/SVGtoSTL.js (a THREE.Geometry: vertices and
    triangular faces) and the edge analysis of SVG3DScene: the boundary
    edges of getBoundaryEdges, the non-manifold edges of getNonValidEdges,
    and the vertical walls of addSides built from the boundary. */
module Meshes {
  import opened Geometry
  import opened Options

  /** THREE.Face3: three vertex ids. */
  datatype Face = Face(a: nat, b: nat, c: nat)

  /** THREE.Geometry: the vertex list and the face list. */
  datatype Mesh = Mesh(vertices: seq<Vertex3>, faces: seq<Face>)

  /** A directed edge [v1, v2]. */
  datatype Edge = Edge(v1: nat, v2: nat)

  function Rev(e: Edge): Edge {
    Edge(e.v2, e.v1)
  }

  /** getVertex: corner 0, 1, or (any other id) 2 of a face. */
  function GetVertex(f: Face, id: nat): nat {
    if id == 0 then f.a else if id == 1 then f.b else f.c
  }

  /** The directed sides (j, j + 1 mod 3) of a face, for j = 0, 1, 2. */
  function FaceSides(f: Face): seq<Edge> {
    [Edge(f.a, f.b), Edge(f.b, f.c), Edge(f.c, f.a)]
  }

  /** The directed sides of the first n faces, in visiting order. */
  function SidesUpTo(faces: seq<Face>, n: nat): seq<Edge>
    requires n <= |faces|
  {
    if n == 0 then [] else SidesUpTo(faces, n - 1) + FaceSides(faces[n - 1])
  }

  function Sides(faces: seq<Face>): seq<Edge> {
    SidesUpTo(faces, |faces|)
  }

  /** All vertex ids of the faces are ids of vertices. */
  predicate FacesValid(m: Mesh) {
    forall f :: f in m.faces ==> f.a < |m.vertices| && f.b < |m.vertices| && f.c < |m.vertices|
  }

  /** The visiting order of sides: the prefix up to side j of face i. */
  function SidesPrefix(faces: seq<Face>, i: nat, j: nat): seq<Edge>
    requires i < |faces| && j <= 3
  {
    SidesUpTo(faces, i) + FaceSides(faces[i])[..j]
  }

  lemma SidesPrefixStep(faces: seq<Face>, i: nat, j: nat)
    requires i < |faces| && j < 3
    ensures SidesPrefix(faces, i, j + 1) ==
            SidesPrefix(faces, i, j) + [Edge(GetVertex(faces[i], j), GetVertex(faces[i], (j + 1) % 3))]
  {
    var f := faces[i];
    assert FaceSides(f)[..j + 1] == FaceSides(f)[..j] + [FaceSides(f)[j]];
    if j == 0 {
      assert FaceSides(f)[j] == Edge(GetVertex(f, 0), GetVertex(f, 1));
    } else if j == 1 {
      assert FaceSides(f)[j] == Edge(GetVertex(f, 1), GetVertex(f, 2));
    } else {
      assert FaceSides(f)[j] == Edge(GetVertex(f, 2), GetVertex(f, 0));
    }
  }

  lemma SidesPrefixEnds(faces: seq<Face>, i: nat)
    requires i < |faces|
    ensures SidesPrefix(faces, i, 0) == SidesUpTo(faces, i)
    ensures SidesPrefix(faces, i, 3) == SidesUpTo(faces, i + 1)
  {
    assert FaceSides(faces[i])[..3] == FaceSides(faces[i]);
  }

  lemma {:induction false} SidesValid(faces: seq<Face>, n: nat, bound: nat)
    requires n <= |faces|
    requires forall f :: f in faces ==> f.a < bound && f.b < bound && f.c < bound
    ensures forall e :: e in SidesUpTo(faces, n) ==> e.v1 < bound && e.v2 < bound
  {
    if n > 0 {
      SidesValid(faces, n - 1, bound);
      assert faces[n - 1] in faces;
    }
  }

  // ---------------------------------------------------------------------
  // getBoundaryEdges

  /** result.filter(x => x != e): every copy of x removed. */
  function Without(r: seq<Edge>, x: Edge): (f: seq<Edge>)
    ensures multiset(f) == multiset(r)[x := 0]
    ensures |f| == |r| <==> x !in r
    ensures x !in r ==> f == r
  {
    if r == [] then []
    else
      var w := Without(r[..|r| - 1], x);
      assert r == r[..|r| - 1] + [r[|r| - 1]];
      if r[|r| - 1] == x then w else w + [r[|r| - 1]]
  }

  /** One side e = [v1, v2] of getBoundaryEdges: drop every [v2, v1]; when
      there was none, append e. */
  function BoundaryStep(r: seq<Edge>, e: Edge): seq<Edge> {
    var f := Without(r, Rev(e));
    if |f| == |r| then r + [e] else f
  }

  function BoundaryFold(s: seq<Edge>): seq<Edge> {
    if s == [] then [] else BoundaryStep(BoundaryFold(s[..|s| - 1]), s[|s| - 1])
  }

  lemma BoundaryFoldSnoc(s: seq<Edge>, e: Edge)
    ensures BoundaryFold(s + [e]) == BoundaryStep(BoundaryFold(s), e)
  {
    assert (s + [e])[..|s|] == s;
  }

  method GetBoundaryEdges(m: Mesh) returns (result: seq<Edge>)
    ensures result == BoundaryFold(Sides(m.faces))
  {
    result := [];
    ghost var seen: seq<Edge> := [];
    var i := 0;
    while i != |m.faces|
      invariant 0 <= i <= |m.faces|
      invariant seen == SidesUpTo(m.faces, i)
      invariant result == BoundaryFold(seen)
    {
      SidesPrefixEnds(m.faces, i);
      var j := 0;
      while j != 3
        invariant 0 <= j <= 3
        invariant seen == SidesPrefix(m.faces, i, j)
        invariant result == BoundaryFold(seen)
      {
        var v1 := GetVertex(m.faces[i], j);
        var v2 := GetVertex(m.faces[i], (j + 1) % 3);
        SidesPrefixStep(m.faces, i, j);
        BoundaryFoldSnoc(seen, Edge(v1, v2));
        var len := |result|;
        result := Without(result, Edge(v2, v1));
        if len == |result| {
          result := result + [Edge(v1, v2)];
        }
        seen := seen + [Edge(v1, v2)];
        j := j + 1;
      }
      i := i + 1;
    }
  }

  /** No edge is held together with its reverse; a degenerate edge [v, v],
      its own reverse, is held at most once. */
  ghost predicate NoReversePair(r: seq<Edge>) {
    (forall x :: x in r && x.v1 != x.v2 ==> Rev(x) !in r) &&
    (forall x: Edge :: x.v1 == x.v2 ==> multiset(r)[x] <= 1)
  }

  lemma {:induction false} BoundaryInvariant(s: seq<Edge>)
    ensures NoReversePair(BoundaryFold(s))
    ensures forall x :: x in BoundaryFold(s) ==> x in s
  {
    if s != [] {
      var p := s[..|s| - 1];
      var e := s[|s| - 1];
      assert s == p + [e];
      BoundaryInvariant(p);
      var r := BoundaryFold(p);
      var f := Without(r, Rev(e));
      if |f| == |r| {
        var r' := r + [e];
        assert multiset(r') == multiset(r) + multiset{e};
        forall x | x in r' && x.v1 != x.v2 ensures Rev(x) !in r' {
          if x == e {
            assert Rev(e) != e;
          } else {
            assert x in r;
          }
        }
      } else {
        forall x | x in f ensures x in s {
          assert multiset(f)[x] > 0;
          assert x in r;
        }
        forall x | x in f && x.v1 != x.v2 ensures Rev(x) !in f {
          assert multiset(f)[x] > 0 && x in r;
          assert Rev(x) !in r;
          assert multiset(f)[Rev(x)] == 0;
        }
      }
    }
  }

  /** A non-degenerate edge is gone once its reverse appears and the edge
      does not come back afterwards. */
  lemma {:induction false} BoundaryRemoved(s: seq<Edge>, e: Edge, q: nat)
    requires e.v1 != e.v2
    requires q < |s| && s[q] == Rev(e)
    requires forall t :: q < t < |s| ==> s[t] != e
    ensures e !in BoundaryFold(s)
  {
    var p := s[..|s| - 1];
    var last := s[|s| - 1];
    var r := BoundaryFold(p);
    var f := Without(r, Rev(last));
    if q < |s| - 1 {
      BoundaryRemoved(p, e, q);
      assert last != e;
      if |f| == |r| {
        assert e !in r + [last];
      } else {
        assert multiset(f)[e] == 0;
      }
    } else {
      assert Rev(last) == e;
      assert Rev(e) != e;
      if |f| == |r| {
        assert e !in r;
        assert e !in r + [last];
      } else {
        assert multiset(f)[e] == 0;
      }
    }
  }

  /** A side whose reverse is not a side of any face is a boundary edge. */
  lemma {:induction false} BoundaryKept(s: seq<Edge>, e: Edge)
    requires e in s && Rev(e) !in s
    ensures e in BoundaryFold(s)
  {
    var p := s[..|s| - 1];
    var last := s[|s| - 1];
    assert s == p + [last];
    var r := BoundaryFold(p);
    var f := Without(r, Rev(last));
    if e in p {
      BoundaryKept(p, e);
      assert Rev(last) != e;
      if |f| != |r| {
        assert multiset(r)[e] > 0;
        assert multiset(f)[e] > 0;
      }
    } else {
      assert last == e;
      BoundaryInvariant(p);
      assert Rev(e) !in r;
    }
  }

  /** getBoundaryEdges: the result never holds an edge with its reverse,
      holds only sides of faces, holds every side whose reverse is no side,
      and drops a side whose reverse comes after its last occurrence. */
  lemma BoundaryEdgesSpec(m: Mesh)
    ensures var b := BoundaryFold(Sides(m.faces));
      NoReversePair(b) &&
      (forall x :: x in b ==> x in Sides(m.faces)) &&
      (forall x :: x in Sides(m.faces) && Rev(x) !in Sides(m.faces) ==> x in b)
    ensures forall x: Edge, q ::
              (x.v1 != x.v2 && 0 <= q < |Sides(m.faces)| && Sides(m.faces)[q] == Rev(x) &&
               (forall t :: q < t < |Sides(m.faces)| ==> Sides(m.faces)[t] != x)) ==>
              x !in BoundaryFold(Sides(m.faces))
  {
    var s := Sides(m.faces);
    BoundaryInvariant(s);
    forall x | x in s && Rev(x) !in s ensures x in BoundaryFold(s) {
      BoundaryKept(s, x);
    }
    forall x: Edge, q | x.v1 != x.v2 && 0 <= q < |s| && s[q] == Rev(x) && (forall t :: q < t < |s| ==> s[t] != x)
      ensures x !in BoundaryFold(s)
    {
      BoundaryRemoved(s, x, q);
    }
  }

  // ---------------------------------------------------------------------
  // getNonValidEdges

  /** The counting key of a side: its two ids, the larger first. */
  function Key(e: Edge): Edge {
    if e.v2 > e.v1 then Edge(e.v2, e.v1) else e
  }

  function Keys(s: seq<Edge>): seq<Edge> {
    seq(|s|, i requires 0 <= i < |s| => Key(s[i]))
  }

  /** The sides with two equal ids, in order. */
  function Degenerate(s: seq<Edge>): seq<Edge> {
    if s == [] then []
    else
      Degenerate(s[..|s| - 1]) + (if s[|s| - 1].v1 == s[|s| - 1].v2 then [s[|s| - 1]] else [])
  }

  /** The keys in the order of their first occurrence. */
  function FirstOccurrences(s: seq<Edge>): seq<Edge> {
    if s == [] then []
    else
      FirstOccurrences(s[..|s| - 1]) + (if s[|s| - 1] in s[..|s| - 1] then [] else [s[|s| - 1]])
  }

  /** The keys not counted exactly twice. */
  function NotTwice(ks: seq<Edge>, count: multiset<Edge>): seq<Edge> {
    if ks == [] then []
    else
      NotTwice(ks[..|ks| - 1], count) + (if count[ks[|ks| - 1]] != 2 then [ks[|ks| - 1]] else [])
  }

  lemma {:induction false} DegenerateSpec(s: seq<Edge>)
    ensures forall x :: x in Degenerate(s) <==> x in s && x.v1 == x.v2
  {
    if s != [] {
      assert s == s[..|s| - 1] + [s[|s| - 1]];
      DegenerateSpec(s[..|s| - 1]);
    }
  }

  lemma {:induction false} FirstOccurrencesSpec(s: seq<Edge>)
    ensures forall x :: x in FirstOccurrences(s) <==> x in s
    ensures forall a, b :: 0 <= a < b < |FirstOccurrences(s)| ==> FirstOccurrences(s)[a] != FirstOccurrences(s)[b]
  {
    if s != [] {
      var p := s[..|s| - 1];
      var last := s[|s| - 1];
      assert s == p + [last];
      FirstOccurrencesSpec(p);
      var d := FirstOccurrences(p);
      var d' := FirstOccurrences(s);
      assert d' == d + (if last in p then [] else [last]);
      forall a, b | 0 <= a < b < |d'| ensures d'[a] != d'[b] {
        if b < |d| {
          assert d'[a] == d[a] && d'[b] == d[b];
        } else {
          assert d'[a] == d[a] && d[a] in d && d'[b] == last;
        }
      }
    }
  }

  lemma {:induction false} NotTwiceSpec(ks: seq<Edge>, count: multiset<Edge>)
    ensures forall x :: x in NotTwice(ks, count) <==> x in ks && count[x] != 2
  {
    if ks != [] {
      assert ks == ks[..|ks| - 1] + [ks[|ks| - 1]];
      NotTwiceSpec(ks[..|ks| - 1], count);
    }
  }

  lemma SnocFacts(s: seq<Edge>, e: Edge)
    ensures Degenerate(s + [e]) == Degenerate(s) + (if e.v1 == e.v2 then [e] else [])
    ensures Keys(s + [e]) == Keys(s) + [Key(e)]
    ensures FirstOccurrences(Keys(s + [e])) == FirstOccurrences(Keys(s)) + (if Key(e) in Keys(s) then [] else [Key(e)])
    ensures multiset(Keys(s + [e])) == multiset(Keys(s)) + multiset{Key(e)}
  {
    assert (s + [e])[..|s|] == s;
    assert Keys(s + [e]) == Keys(s) + [Key(e)];
    assert (Keys(s) + [Key(e)])[..|s|] == Keys(s);
  }

  /** NotTwice over the first n keys, indexed rather than sliced. */
  function NotTwiceUpTo(ks: seq<Edge>, count: multiset<Edge>, n: nat): seq<Edge>
    requires n <= |ks|
  {
    if n == 0 then [] else NotTwiceUpTo(ks, count, n - 1) + (if count[ks[n - 1]] != 2 then [ks[n - 1]] else [])
  }

  lemma {:induction false} NotTwiceUpToIs(ks: seq<Edge>, count: multiset<Edge>, n: nat)
    requires n <= |ks|
    ensures NotTwiceUpTo(ks, count, n) == NotTwice(ks[..n], count)
  {
    if n > 0 {
      NotTwiceUpToIs(ks, count, n - 1);
      assert ks[..n][..n - 1] == ks[..n - 1];
    }
  }

  lemma NotTwiceSnoc(ks: seq<Edge>, k: Edge, count: multiset<Edge>)
    ensures NotTwice(ks + [k], count) == NotTwice(ks, count) + (if count[k] != 2 then [k] else [])
  {
    assert (ks + [k])[..|ks|] == ks;
  }

  /** The undirected edges not shared by exactly two sides, each once, in
      the order of their first side. */
  function NonManifold(faces: seq<Face>): seq<Edge> {
    var ks := Keys(Sides(faces));
    NotTwice(FirstOccurrences(ks), multiset(ks))
  }

  /** What getNonValidEdges evidently intends: the degenerate sides, then
      the non-manifold edges. */
  function NonValidEdges(faces: seq<Face>): seq<Edge> {
    Degenerate(Sides(faces)) + NonManifold(faces)
  }

  /** getNonValidEdges as written: the counter map never gains an entry
      (its else branch reads nbHalfEdges[key] without storing it), so the
      loop over its keys has nothing to visit and only the degenerate sides
      are reported. */
  method GetNonValidEdgesAsWritten(m: Mesh) returns (result: seq<Edge>)
    ensures result == Degenerate(Sides(m.faces))
  {
    result := [];
    var counts: map<Edge, nat> := map[];
    ghost var seen: seq<Edge> := [];
    var i := 0;
    while i != |m.faces|
      invariant 0 <= i <= |m.faces|
      invariant counts == map[]
      invariant seen == SidesUpTo(m.faces, i)
      invariant result == Degenerate(seen)
    {
      SidesPrefixEnds(m.faces, i);
      var j := 0;
      while j != 3
        invariant 0 <= j <= 3
        invariant counts == map[]
        invariant seen == SidesPrefix(m.faces, i, j)
        invariant result == Degenerate(seen)
      {
        var v1 := GetVertex(m.faces[i], j);
        var v2 := GetVertex(m.faces[i], (j + 1) % 3);
        SidesPrefixStep(m.faces, i, j);
        SnocFacts(seen, Edge(v1, v2));
        if v1 == v2 {
          result := result + [Edge(v1, v2)];
        }
        var key := Key(Edge(v1, v2));
        if key in counts {
          assert false;
        }
        seen := seen + [Edge(v1, v2)];
        j := j + 1;
      }
      i := i + 1;
    }
  }

  /** The counter map nbHalfEdges is meant to hold after the keys ks. */
  function CountMap(ks: seq<Edge>): map<Edge, nat> {
    if ks == [] then map[]
    else
      var m := CountMap(ks[..|ks| - 1]);
      var k := ks[|ks| - 1];
      if k in m then m[k := m[k] + 1] else m[k := 1]
  }

  lemma CountMapSnoc(ks: seq<Edge>, k: Edge)
    ensures CountMap(ks + [k]) ==
            if k in CountMap(ks) then CountMap(ks)[k := CountMap(ks)[k] + 1] else CountMap(ks)[k := 1]
  {
    assert (ks + [k])[..|ks|] == ks;
  }

  lemma {:induction false} CountMapHas(ks: seq<Edge>, k: Edge)
    ensures k in CountMap(ks) <==> k in ks
  {
    if ks != [] {
      var p := ks[..|ks| - 1];
      assert ks == p + [ks[|ks| - 1]];
      CountMapHas(p, k);
    }
  }

  lemma {:induction false} CountMapCount(ks: seq<Edge>, k: Edge)
    requires k in ks
    ensures k in CountMap(ks) && CountMap(ks)[k] == multiset(ks)[k]
  {
    CountMapSpec(ks);
  }

  lemma FirstOccurrencesHas(s: seq<Edge>, x: Edge)
    requires x in FirstOccurrences(s)
    ensures x in s
  {
    FirstOccurrencesSpec(s);
  }

  /** The map holds each key with its number of occurrences. */
  lemma {:induction false} CountMapSpec(ks: seq<Edge>)
    ensures forall k :: k in CountMap(ks) <==> k in ks
    ensures forall k :: k in CountMap(ks) ==> CountMap(ks)[k] == multiset(ks)[k]
  {
    if ks != [] {
      var p := ks[..|ks| - 1];
      assert ks == p + [ks[|ks| - 1]];
      CountMapSpec(p);
    }
  }

  /** The state of getNonValidEdges's first loop: the reported pairs, the
      counter map and its keys in insertion order. */
  datatype Tally = Tally(result: seq<Edge>, counts: map<Edge, nat>, keys: seq<Edge>)

  /** One side of the first loop, with the count stored on a first
      occurrence. */
  function TallyStep(t: Tally, e: Edge): Tally {
    var result := if e.v1 == e.v2 then t.result + [e] else t.result;
    var key := Key(e);
    if key in t.counts then Tally(result, t.counts[key := t.counts[key] + 1], t.keys)
    else Tally(result, t.counts[key := 1], t.keys + [key])
  }

  function TallyFold(s: seq<Edge>): Tally {
    if s == [] then Tally([], map[], []) else TallyStep(TallyFold(s[..|s| - 1]), s[|s| - 1])
  }

  /** The body of the first loop for the side v1-v2. */
  method TallySide(result0: seq<Edge>, counts0: map<Edge, nat>, keys0: seq<Edge>, v1: nat, v2: nat)
    returns (result: seq<Edge>, counts: map<Edge, nat>, keys: seq<Edge>)
    ensures Tally(result, counts, keys) == TallyStep(Tally(result0, counts0, keys0), Edge(v1, v2))
  {
    result, counts, keys := result0, counts0, keys0;
    if v1 == v2 {
      result := result + [Edge(v1, v2)];
    }
    var key := Key(Edge(v1, v2));
    if key in counts {
      counts := counts[key := counts[key] + 1];
    } else {
      counts := counts[key := 1];
      keys := keys + [key];
    }
  }

  lemma TallyFoldSnoc(s: seq<Edge>, e: Edge)
    ensures TallyFold(s + [e]) == TallyStep(TallyFold(s), e)
  {
    assert (s + [e])[..|s|] == s;
  }

  /** After the sides s the tally holds the degenerate sides, the count of
      every key and the keys in first-occurrence order. */
  lemma {:induction false} TallyFoldSpec(s: seq<Edge>)
    ensures TallyFold(s) == Tally(Degenerate(s), CountMap(Keys(s)), FirstOccurrences(Keys(s)))
  {
    if s != [] {
      var p := s[..|s| - 1];
      var e := s[|s| - 1];
      assert s == p + [e];
      TallyFoldSpec(p);
      SnocFacts(p, e);
      CountMapSnoc(Keys(p), Key(e));
      CountMapHas(Keys(p), Key(e));
    }
  }

  /** getNonValidEdges with the count stored on a first occurrence and the
      != 2 test guarding the push. */
  method GetNonValidEdges(m: Mesh) returns (result: seq<Edge>)
    ensures result == NonValidEdges(m.faces)
  {
    result := [];
    var counts: map<Edge, nat> := map[];
    var keys: seq<Edge> := [];
    ghost var seen: seq<Edge> := [];
    var i := 0;
    while i != |m.faces|
      invariant 0 <= i <= |m.faces|
      invariant seen == SidesUpTo(m.faces, i)
      invariant Tally(result, counts, keys) == TallyFold(seen)
    {
      SidesPrefixEnds(m.faces, i);
      var j := 0;
      while j != 3
        invariant 0 <= j <= 3
        invariant seen == SidesPrefix(m.faces, i, j)
        invariant Tally(result, counts, keys) == TallyFold(seen)
      {
        var v1 := GetVertex(m.faces[i], j);
        var v2 := GetVertex(m.faces[i], (j + 1) % 3);
        SidesPrefixStep(m.faces, i, j);
        TallyFoldSnoc(seen, Edge(v1, v2));
        result, counts, keys := TallySide(result, counts, keys, v1, v2);
        seen := seen + [Edge(v1, v2)];
        j := j + 1;
      }
      i := i + 1;
    }
    TallyFoldSpec(seen);
    var reported := ReportNotTwice(keys, counts, Keys(seen));
    result := result + reported;
  }

  /** The loop of getNonValidEdges over the keys of its counter map, with
      the != 2 test guarding the push. */
  method ReportNotTwice(keys: seq<Edge>, counts: map<Edge, nat>, ghost ks: seq<Edge>) returns (r: seq<Edge>)
    requires keys == FirstOccurrences(ks) && counts == CountMap(ks)
    ensures r == NotTwice(keys, multiset(ks))
  {
    r := [];
    var k := 0;
    while k != |keys|
      invariant 0 <= k <= |keys|
      invariant r == NotTwiceUpTo(keys, multiset(ks), k)
    {
      FirstOccurrencesHas(ks, keys[k]);
      CountMapCount(ks, keys[k]);
      if counts[keys[k]] != 2 {
        r := r + [keys[k]];
      }
      k := k + 1;
    }
    NotTwiceUpToIs(keys, multiset(ks), |keys|);
    assert keys[..|keys|] == keys;
  }

  lemma {:induction false} NotTwiceDistinct(ks: seq<Edge>, count: multiset<Edge>)
    requires forall a, b :: 0 <= a < b < |ks| ==> ks[a] != ks[b]
    ensures forall a, b :: 0 <= a < b < |NotTwice(ks, count)| ==> NotTwice(ks, count)[a] != NotTwice(ks, count)[b]
  {
    if ks != [] {
      var p := ks[..|ks| - 1];
      var last := ks[|ks| - 1];
      NotTwiceDistinct(p, count);
      NotTwiceSpec(p, count);
      var r := NotTwice(p, count);
      assert last !in p;
      assert last !in r;
      assert ks == p + [last];
      if count[last] != 2 {
        var r' := r + [last];
        assert NotTwice(ks, count) == r';
        forall a, b | 0 <= a < b < |r'| ensures r'[a] != r'[b] {
          if b < |r| {
            assert r'[a] == r[a] && r'[b] == r[b];
          } else {
            assert b == |r|;
            assert r'[b] == last;
            assert r'[a] == r[a];
            assert r[a] in r;
          }
        }
      } else {
        assert NotTwice(ks, count) == r;
      }
    }
  }

  /** The keys of the sides are exactly the keys of some side. */
  lemma KeysSpec(s: seq<Edge>, x: Edge)
    ensures x in Keys(s) <==> exists e :: e in s && Key(e) == x
  {
    var ks := Keys(s);
    if x in ks {
      var i :| 0 <= i < |ks| && ks[i] == x;
      assert s[i] in s;
    }
    if exists e :: e in s && Key(e) == x {
      var e :| e in s && Key(e) == x;
      var i :| 0 <= i < |s| && s[i] == e;
      assert ks[i] == x;
    }
  }

  /** An undirected edge is reported exactly when some side has it and it
      is not shared by exactly two sides. */
  lemma NonManifoldHas(faces: seq<Face>, x: Edge)
    ensures x in NonManifold(faces) <==>
      (exists e :: e in Sides(faces) && Key(e) == x) && multiset(Keys(Sides(faces)))[x] != 2
  {
    var ks := Keys(Sides(faces));
    KeysSpec(Sides(faces), x);
    FirstOccurrencesSpec(ks);
    NotTwiceSpec(FirstOccurrences(ks), multiset(ks));
  }

  /** No undirected edge is reported twice. */
  lemma NonManifoldOnce(faces: seq<Face>)
    ensures forall a, b :: 0 <= a < b < |NonManifold(faces)| ==> NonManifold(faces)[a] != NonManifold(faces)[b]
  {
    var ks := Keys(Sides(faces));
    FirstOccurrencesSpec(ks);
    NotTwiceDistinct(FirstOccurrences(ks), multiset(ks));
  }

  /** A lone triangle: three sides, each bordering a single face. */
  function LoneTriangle(): seq<Face> {
    [Face(0, 1, 2)]
  }

  lemma LoneTriangleSides()
    ensures Sides(LoneTriangle()) == [Edge(0, 1), Edge(1, 2), Edge(2, 0)]
  {
  }

  lemma NoDegenerate(s: seq<Edge>)
    requires forall e :: e in s ==> e.v1 != e.v2
    ensures Degenerate(s) == []
  {
    DegenerateSpec(s);
    if Degenerate(s) != [] {
      assert Degenerate(s)[0] in Degenerate(s);
    }
  }

  /** FirstOccurrences leaves a sequence without repetitions as it is. */
  lemma {:induction false} FirstOccurrencesUnchanged(s: seq<Edge>)
    requires forall a, b :: 0 <= a < b < |s| ==> s[a] != s[b]
    ensures FirstOccurrences(s) == s
  {
    if s != [] {
      var p := s[..|s| - 1];
      assert s == p + [s[|s| - 1]];
      FirstOccurrencesUnchanged(p);
      assert s[|s| - 1] !in p;
    }
  }

  lemma {:induction false} NotTwiceUnchanged(ks: seq<Edge>, count: multiset<Edge>)
    requires forall x :: x in ks ==> count[x] != 2
    ensures NotTwice(ks, count) == ks
  {
    if ks != [] {
      var p := ks[..|ks| - 1];
      assert ks == p + [ks[|ks| - 1]];
      NotTwiceUnchanged(p, count);
    }
  }

  lemma LoneTriangleKeys()
    ensures Keys(Sides(LoneTriangle())) == [Edge(1, 0), Edge(2, 1), Edge(2, 0)]
  {
    LoneTriangleSides();
  }

  lemma LoneTriangleNonManifold()
    ensures NonManifold(LoneTriangle()) == [Edge(1, 0), Edge(2, 1), Edge(2, 0)]
  {
    LoneTriangleKeys();
    var ks := [Edge(1, 0), Edge(2, 1), Edge(2, 0)];
    FirstOccurrencesUnchanged(ks);
    var c := multiset(ks);
    assert c[Edge(1, 0)] == 1 && c[Edge(2, 1)] == 1 && c[Edge(2, 0)] == 1;
    NotTwiceUnchanged(ks, c);
  }

  /** As written, getNonValidEdges reports nothing for a lone triangle,
      although each of its three edges borders a single face. */
  lemma LoneTriangleUnreported()
    ensures Degenerate(Sides(LoneTriangle())) == []
    ensures NonValidEdges(LoneTriangle()) == [Edge(1, 0), Edge(2, 1), Edge(2, 0)]
  {
    LoneTriangleSides();
    NoDegenerate(Sides(LoneTriangle()));
    LoneTriangleNonManifold();
  }

  // -------------------------------------------------------------------
  // The report loop of getNonValidEdges as written

  /** The key the hoisted `var v` holds after the first n turns: the last
      of them whose count is not 2, if any. */
  function LastNotTwice(ks: seq<Edge>, count: multiset<Edge>, n: nat): Option<Edge>
    requires n <= |ks|
  {
    if n == 0 then None
    else if count[ks[n - 1]] != 2 then Some(ks[n - 1])
    else LastNotTwice(ks, count, n - 1)
  }

  /** The report loop as written: without braces only the split is guarded,
      so every key pushes the current `v`; a key reached while `v` is still
      undefined throws (None). */
  function UnbracedUpTo(ks: seq<Edge>, count: multiset<Edge>, n: nat): Option<seq<Edge>>
    requires n <= |ks|
  {
    if n == 0 then Some([])
    else
      var prev := UnbracedUpTo(ks, count, n - 1);
      var v := LastNotTwice(ks, count, n);
      if prev.None? || v.None? then None else Some(prev.value + [v.value])
  }

  /** As written the loop pushes once per key and throws exactly when the
      first key counts 2; where no key counts 2 it reports what the braced
      loop reports. */
  lemma {:induction false} UnbracedSpec(ks: seq<Edge>, count: multiset<Edge>, n: nat)
    requires n <= |ks|
    ensures UnbracedUpTo(ks, count, n).None? <==> n > 0 && count[ks[0]] == 2
    ensures UnbracedUpTo(ks, count, n).Some? ==> |UnbracedUpTo(ks, count, n).value| == n
    ensures (forall k :: 0 <= k < n ==> count[ks[k]] != 2) ==> UnbracedUpTo(ks, count, n) == Some(NotTwiceUpTo(ks, count, n))
  {
    if n > 0 {
      UnbracedSpec(ks, count, n - 1);
      LastNotTwiceFirst(ks, count, n);
    }
  }

  /** The hoisted `v` is undefined after n turns exactly when every one of
      them counted 2. */
  lemma {:induction false} LastNotTwiceFirst(ks: seq<Edge>, count: multiset<Edge>, n: nat)
    requires 0 < n <= |ks|
    ensures LastNotTwice(ks, count, n).None? <==> forall k :: 0 <= k < n ==> count[ks[k]] == 2
  {
    if n > 1 {
      LastNotTwiceFirst(ks, count, n - 1);
    }
  }

  /** As written a key counted twice after one counted once repeats the
      earlier key, and a first key counted twice throws; the braced loop
      reports the first key alone. */
  lemma UnbracedReportRepeats()
    ensures UnbracedUpTo([Edge(1, 0), Edge(2, 1)], multiset{Edge(1, 0), Edge(2, 1), Edge(2, 1)}, 2)
            == Some([Edge(1, 0), Edge(1, 0)])
    ensures NotTwice([Edge(1, 0), Edge(2, 1)], multiset{Edge(1, 0), Edge(2, 1), Edge(2, 1)}) == [Edge(1, 0)]
    ensures UnbracedUpTo([Edge(2, 1), Edge(1, 0)], multiset{Edge(1, 0), Edge(2, 1), Edge(2, 1)}, 2).None?
  {
    var ks := [Edge(1, 0), Edge(2, 1)];
    var c := multiset{Edge(1, 0), Edge(2, 1), Edge(2, 1)};
    assert c[Edge(1, 0)] == 1 && c[Edge(2, 1)] == 2;
    assert ks[..1] == [Edge(1, 0)] && [Edge(1, 0)][..0] == [];
    assert NotTwice([Edge(1, 0)], c) == [Edge(1, 0)];
    assert UnbracedUpTo(ks, c, 1) == Some([Edge(1, 0)]);
    assert LastNotTwice(ks, c, 2) == LastNotTwice(ks, c, 1) == Some(Edge(1, 0));
    assert UnbracedUpTo(ks, c, 2) == Some([Edge(1, 0)] + [Edge(1, 0)]);
    assert [Edge(1, 0)] + [Edge(1, 0)] == [Edge(1, 0), Edge(1, 0)];
    var ws := [Edge(2, 1), Edge(1, 0)];
    assert LastNotTwice(ws, c, 1).None?;
    assert UnbracedUpTo(ws, c, 1).None?;
    assert UnbracedUpTo(ws, c, 2).None?;
  }
}
