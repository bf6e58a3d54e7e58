/** The containment tree of TreeNode (js/SVGtoSTL.js), which sorts a flat
    list of rings into polygons with holes. The root node has no polygon
    of its own, so it is represented by the list of its children. */
module Forest {
  import opened Geometry

  type Ring = seq<Point>

  /** A polygon as splitIntoShapes returns it: the contour, then the holes. */
  type Polygon = seq<Ring>

  datatype Tree = Node(polygon: Ring, children: seq<Tree>)

  /** Every ring stored in the forest is non-empty: addPolygon skips empty
      rings, and it reads the first point of every stored one. */
  predicate WellFormed(f: seq<Tree>)
    decreases f
  {
    forall i :: 0 <= i < |f| ==> |f[i].polygon| > 0 && WellFormed(f[i].children)
  }

  /** The rings stored in a forest, with multiplicity. */
  function Rings(f: seq<Tree>): multiset<Ring>
    decreases f
  {
    if |f| == 0 then multiset{} else TreeRings(f[0]) + Rings(f[1..])
  }

  /** The rings stored in one tree: its own and its descendants'. */
  function TreeRings(t: Tree): multiset<Ring>
    decreases t
  {
    multiset{t.polygon} + Rings(t.children)
  }

  /** The tree t lies inside ring, judged by its first point. */
  predicate Within(t: Tree, ring: Ring) {
    |t.polygon| > 0 && Inside(t.polygon[0], ring)
  }

  /** The index of the first tree whose ring contains pt, or |f|. */
  function FirstContaining(f: seq<Tree>, pt: Point, from: nat): (r: nat)
    requires from <= |f|
    ensures from <= r <= |f|
    ensures forall k :: from <= k < r ==> !Inside(pt, f[k].polygon)
    ensures r < |f| ==> Inside(pt, f[r].polygon)
    decreases |f| - from
  {
    if from == |f| then from
    else if Inside(pt, f[from].polygon) then from
    else FirstContaining(f, pt, from + 1)
  }

  /** The trees of f whose Within(_, ring) equals keep, in order. */
  function Select(f: seq<Tree>, ring: Ring, keep: bool): (s: seq<Tree>)
    ensures forall k :: 0 <= k < |s| ==> s[k] in f && Within(s[k], ring) == keep
    ensures |s| <= |f|
    decreases f
  {
    if |f| == 0 then []
    else (if Within(f[0], ring) == keep then [f[0]] else []) + Select(f[1..], ring, keep)
  }

  /** The filter keeps the order of the children: selecting from two
      lists in turn is selecting from their concatenation. */
  lemma {:induction false} SelectAppend(a: seq<Tree>, b: seq<Tree>, ring: Ring, keep: bool)
    ensures Select(a + b, ring, keep) == Select(a, ring, keep) + Select(b, ring, keep)
    decreases |a|
  {
    if |a| > 0 {
      var head := if Within(a[0], ring) == keep then [a[0]] else [];
      var ab := a + b;
      assert ab[0] == a[0] && ab[1..] == a[1..] + b;
      assert Select(ab, ring, keep) == head + Select(a[1..] + b, ring, keep);
      assert Select(a, ring, keep) == head + Select(a[1..], ring, keep);
      SelectAppend(a[1..], b, ring, keep);
      var x, y := Select(a[1..], ring, keep), Select(b, ring, keep);
      assert head + (x + y) == (head + x) + y;
    } else {
      assert a + b == b;
    }
  }

  /** addPolygon on a node whose children are f. */
  function AddPolygon(f: seq<Tree>, polygon: Ring): seq<Tree>
    decreases f
  {
    if |polygon| == 0 then f
    else if |f| == 0 then [Node(polygon, [])]
    else
      var i := FirstContaining(f, polygon[0], 0);
      if i < |f| then
        f[i := Node(f[i].polygon, AddPolygon(f[i].children, polygon))]
      else
        var insideChildren := Select(f, polygon, true);
        if |insideChildren| > 0 then Select(f, polygon, false) + [Node(polygon, insideChildren)]
        else f + [Node(polygon, [])]
  }

  /** The forest after adding the rings one by one to an empty root. */
  function Build(rings: seq<Ring>): seq<Tree>
    decreases |rings|
  {
    if |rings| == 0 then []
    else AddPolygon(Build(rings[..|rings| - 1]), rings[|rings| - 1])
  }

  /** The non-empty rings, in order. */
  function NonEmpty(rings: seq<Ring>): (s: seq<Ring>)
    ensures forall k :: 0 <= k < |s| ==> |s[k]| > 0
    decreases |rings|
  {
    if |rings| == 0 then []
    else NonEmpty(rings[..|rings| - 1]) + (if |rings[|rings| - 1]| > 0 then [rings[|rings| - 1]] else [])
  }

  /** A contour is emitted counter-clockwise: reversed when clockwise. */
  function ContourOf(r: Ring): Ring {
    if IsClockwise(r) then Reverse(r) else r
  }

  /** A hole is emitted clockwise: reversed when not clockwise. */
  function HoleOf(r: Ring): Ring {
    if !IsClockwise(r) then Reverse(r) else r
  }

  /** The oriented rings of the children, as the holes of their parent. */
  function HolesOf(gs: seq<Tree>): (hs: seq<Ring>)
    ensures |hs| == |gs|
    ensures forall k :: 0 <= k < |gs| ==> hs[k] == HoleOf(gs[k].polygon)
    decreases gs
  {
    if |gs| == 0 then [] else [HoleOf(gs[0].polygon)] + HolesOf(gs[1..])
  }

  /** flatten on a node whose children are f: one polygon per child, with
      that child's children as holes, followed by the polygons of the
      grandchildren's subtrees. */
  function Flatten(f: seq<Tree>): seq<Polygon>
    decreases f
  {
    if |f| == 0 then []
    else [[ContourOf(f[0].polygon)] + HolesOf(f[0].children)] + FlattenKids(f[0].children) + Flatten(f[1..])
  }

  /** The flatten results of each of gs, concatenated. */
  function FlattenKids(gs: seq<Tree>): seq<Polygon>
    decreases gs
  {
    if |gs| == 0 then [] else Flatten(gs[0].children) + FlattenKids(gs[1..])
  }

  /** All rings of a list of polygons, in order. */
  function AllRings(shapes: seq<Polygon>): seq<Ring>
    decreases |shapes|
  {
    if |shapes| == 0 then [] else shapes[0] + AllRings(shapes[1..])
  }

  /** The stored rings in the order flatten emits them. */
  function TreeOrder(f: seq<Tree>): seq<Ring>
    decreases f
  {
    if |f| == 0 then []
    else [f[0].polygon] + Polys(f[0].children) + KidsOrder(f[0].children) + TreeOrder(f[1..])
  }

  function KidsOrder(gs: seq<Tree>): seq<Ring>
    decreases gs
  {
    if |gs| == 0 then [] else TreeOrder(gs[0].children) + KidsOrder(gs[1..])
  }

  function Polys(gs: seq<Tree>): (ps: seq<Ring>)
    ensures |ps| == |gs|
    ensures forall k :: 0 <= k < |gs| ==> ps[k] == gs[k].polygon
    decreases gs
  {
    if |gs| == 0 then [] else [gs[0].polygon] + Polys(gs[1..])
  }

  /** o lists the rings of r, position by position, each one either kept
      or reversed. */
  predicate Reoriented(o: seq<Ring>, r: seq<Ring>) {
    |o| == |r| && forall k :: 0 <= k < |o| ==> o[k] == r[k] || o[k] == Reverse(r[k])
  }

  /** Every contour of more than two points has a non-positive shoelace sum
      and every hole of more than two points is clockwise. */
  predicate WellOriented(shapes: seq<Polygon>) {
    forall i :: 0 <= i < |shapes| ==>
      |shapes[i]| > 0 &&
      (|shapes[i][0]| > 2 ==> ShoelaceSum(shapes[i][0]) <= 0.0) &&
      (forall j :: 1 <= j < |shapes[i]| && |shapes[i][j]| > 2 ==> IsClockwise(shapes[i][j]))
  }

  /** TreeNode.splitIntoShapes on a flat list of rings. The type test on
      the first point of the first ring throws when that ring is empty;
      ok is then unset and no polygon is returned. */
  method SplitIntoShapes(rings: seq<Ring>) returns (ok: bool, shapes: seq<Polygon>)
    ensures ok <==> |rings| == 0 || |rings[0]| > 0
    ensures !ok ==> shapes == []
    ensures ok ==> shapes == Flatten(Build(rings))
    ensures ok ==> Reoriented(AllRings(shapes), TreeOrder(Build(rings)))
    ensures ok ==> multiset(TreeOrder(Build(rings))) == multiset(NonEmpty(rings))
    ensures WellOriented(shapes)
  {
    if |rings| == 0 {
      return true, [];
    }
    if |rings[0]| == 0 {
      return false, [];
    }
    ok := true;
    var tree: seq<Tree> := [];
    var i := 0;
    while i < |rings|
      invariant 0 <= i <= |rings|
      invariant tree == Build(rings[..i])
    {
      assert rings[..i + 1][..i] == rings[..i];
      tree := AddPolygon(tree, rings[i]);
      i := i + 1;
    }
    assert rings[..i] == rings;
    shapes := Flatten(tree);
    FlattenReoriented(tree);
    BuildRings(rings);
    TreeOrderRings(tree);
    FlattenWellOriented(tree);
  }

  /** TreeNode.splitIntoShapes on a list of lists of rings. The type test
      reads the first ring of the first group, and throws when that group
      is empty; ok is then unset and no polygon is returned. */
  method SplitGroupsIntoShapes(groups: seq<seq<Ring>>) returns (ok: bool, shapes: seq<Polygon>)
    ensures ok <==> |groups| == 0 || |groups[0]| > 0
    ensures !ok ==> shapes == []
    ensures ok ==> shapes == Flatten(Build(Concat(groups)))
    ensures ok ==> Reoriented(AllRings(shapes), TreeOrder(Build(Concat(groups))))
    ensures ok ==> multiset(TreeOrder(Build(Concat(groups)))) == multiset(NonEmpty(Concat(groups)))
    ensures WellOriented(shapes)
  {
    ghost var all := Concat(groups);
    if |groups| == 0 {
      return true, [];
    }
    if |groups[0]| == 0 {
      return false, [];
    }
    ok := true;
    var tree: seq<Tree> := [];
    var i := 0;
    while i < |groups|
      invariant 0 <= i <= |groups|
      invariant tree == Build(Concat(groups[..i]))
    {
      tree := AddGroup(tree, Concat(groups[..i]), groups[i]);
      ConcatStep(groups, i);
      i := i + 1;
    }
    assert groups[..i] == groups;
    shapes := Flatten(tree);
    FlattenReoriented(tree);
    BuildRings(all);
    TreeOrderRings(tree);
    FlattenWellOriented(tree);
  }

  /** The inner loop of splitIntoShapes: the rings of one group added in order. */
  method AddGroup(tree: seq<Tree>, ghost added: seq<Ring>, group: seq<Ring>) returns (t: seq<Tree>)
    requires tree == Build(added)
    ensures t == Build(added + group)
  {
    t := tree;
    var j := 0;
    assert added + group[..0] == added;
    while j < |group|
      invariant 0 <= j <= |group|
      invariant t == Build(added + group[..j])
    {
      GroupSnoc(added, group, j);
      t := AddPolygon(t, group[j]);
      j := j + 1;
    }
    assert group[..j] == group;
  }

  lemma GroupSnoc(added: seq<Ring>, group: seq<Ring>, j: nat)
    requires j < |group|
    ensures Build(added + group[..j + 1]) == AddPolygon(Build(added + group[..j]), group[j])
  {
    assert added + group[..j + 1] == (added + group[..j]) + [group[j]];
    BuildSnoc(added + group[..j], group[j]);
  }

  lemma BuildSnoc(rings: seq<Ring>, r: Ring)
    ensures Build(rings + [r]) == AddPolygon(Build(rings), r)
  {
    assert (rings + [r])[..|rings|] == rings;
  }

  function Concat(groups: seq<seq<Ring>>): seq<Ring>
    decreases |groups|
  {
    if |groups| == 0 then [] else Concat(groups[..|groups| - 1]) + groups[|groups| - 1]
  }

  lemma ConcatStep(groups: seq<seq<Ring>>, i: nat)
    requires i < |groups|
    ensures Concat(groups[..i + 1]) == Concat(groups[..i]) + groups[i]
  {
    assert groups[..i + 1][..i] == groups[..i];
  }

  // ---------------------------------------------------------------------
  // addPolygon keeps every ring

  lemma {:induction false} RingsAppend(a: seq<Tree>, b: seq<Tree>)
    ensures Rings(a + b) == Rings(a) + Rings(b)
    decreases a
  {
    if |a| > 0 {
      assert (a + b)[0] == a[0];
      assert (a + b)[1..] == a[1..] + b;
      RingsAppend(a[1..], b);
    } else {
      assert a + b == b;
    }
  }

  lemma {:induction false} RingsSingle(t: Tree)
    ensures Rings([t]) == TreeRings(t)
  {
    assert [t][1..] == [];
  }

  lemma MultisetCancel(x: multiset<Ring>, y: multiset<Ring>, a: multiset<Ring>)
    requires x + a == y + a
    ensures x == y
  {
    forall e ensures x[e] == y[e] {
      assert (x + a)[e] == (y + a)[e];
    }
  }

  lemma {:induction false} RingsSplit(f: seq<Tree>, i: nat)
    requires i < |f|
    ensures Rings(f) == Rings(f[..i]) + TreeRings(f[i]) + Rings(f[i + 1..])
  {
    assert f == f[..i] + ([f[i]] + f[i + 1..]);
    RingsAppend(f[..i], [f[i]] + f[i + 1..]);
    RingsAppend([f[i]], f[i + 1..]);
    RingsSingle(f[i]);
  }

  lemma {:induction false} RingsUpdate(f: seq<Tree>, i: nat, t: Tree)
    requires i < |f|
    ensures Rings(f[i := t]) + TreeRings(f[i]) == Rings(f) + TreeRings(t)
  {
    var g := f[i := t];
    RingsSplit(f, i);
    RingsSplit(g, i);
    assert g[..i] == f[..i] && g[i + 1..] == f[i + 1..];
  }

  lemma {:induction false} RingsSelect(f: seq<Tree>, ring: Ring)
    ensures Rings(Select(f, ring, true)) + Rings(Select(f, ring, false)) == Rings(f)
    decreases f
  {
    if |f| > 0 {
      RingsSelect(f[1..], ring);
      var a := if Within(f[0], ring) then [f[0]] else [];
      var b := if Within(f[0], ring) then [] else [f[0]];
      RingsAppend(a, Select(f[1..], ring, true));
      RingsAppend(b, Select(f[1..], ring, false));
      RingsSingle(f[0]);
    }
  }

  lemma {:induction false} SelectWellFormed(f: seq<Tree>, ring: Ring, keep: bool)
    requires WellFormed(f)
    ensures WellFormed(Select(f, ring, keep))
  {
    var s := Select(f, ring, keep);
    forall k | 0 <= k < |s| ensures |s[k].polygon| > 0 && WellFormed(s[k].children) {
      var m :| 0 <= m < |f| && f[m] == s[k];
    }
  }

  /** addPolygon keeps every stored ring non-empty. */
  lemma {:induction false} AddPolygonWellFormed(f: seq<Tree>, polygon: Ring)
    requires WellFormed(f)
    ensures WellFormed(AddPolygon(f, polygon))
    decreases f
  {
    if |polygon| > 0 && |f| > 0 {
      var i := FirstContaining(f, polygon[0], 0);
      if i < |f| {
        AddPolygonWellFormed(f[i].children, polygon);
        var sub := AddPolygon(f[i].children, polygon);
        assert AddPolygon(f, polygon) == f[i := Node(f[i].polygon, sub)];
        ReplaceWellFormed(f, i, Node(f[i].polygon, sub));
      } else {
        var ins := Select(f, polygon, true);
        var outs := Select(f, polygon, false);
        SelectWellFormed(f, polygon, true);
        SelectWellFormed(f, polygon, false);
        if |ins| > 0 {
          assert AddPolygon(f, polygon) == outs + [Node(polygon, ins)];
          AppendWellFormed(outs, Node(polygon, ins));
        } else {
          assert AddPolygon(f, polygon) == f + [Node(polygon, [])];
          AppendWellFormed(f, Node(polygon, []));
        }
      }
    }
  }

  lemma ReplaceWellFormed(f: seq<Tree>, i: nat, t: Tree)
    requires WellFormed(f) && i < |f| && |t.polygon| > 0 && WellFormed(t.children)
    ensures WellFormed(f[i := t])
  {
    var r := f[i := t];
    forall k | 0 <= k < |r| ensures |r[k].polygon| > 0 && WellFormed(r[k].children) {
      if k != i {
        assert r[k] == f[k];
      }
    }
  }

  lemma AppendWellFormed(f: seq<Tree>, t: Tree)
    requires WellFormed(f) && |t.polygon| > 0 && WellFormed(t.children)
    ensures WellFormed(f + [t])
  {
    var r := f + [t];
    forall k | 0 <= k < |r| ensures |r[k].polygon| > 0 && WellFormed(r[k].children) {
      if k < |f| {
        assert r[k] == f[k];
      }
    }
  }

  /** The rings after a polygon is added beside the children instead of
      inside one of them. */
  lemma AddBesideRings(f: seq<Tree>, polygon: Ring)
    ensures Rings(if |Select(f, polygon, true)| > 0
                  then Select(f, polygon, false) + [Node(polygon, Select(f, polygon, true))]
                  else f + [Node(polygon, [])])
         == Rings(f) + multiset{polygon}
  {
    var ins := Select(f, polygon, true);
    var outs := Select(f, polygon, false);
    RingsSelect(f, polygon);
    if |ins| > 0 {
      RingsAppend(outs, [Node(polygon, ins)]);
      RingsSingle(Node(polygon, ins));
    } else {
      RingsAppend(f, [Node(polygon, [])]);
      RingsSingle(Node(polygon, []));
    }
  }

  /** addPolygon stores a non-empty ring exactly once more and changes
      nothing for an empty one. */
  lemma {:induction false} AddPolygonRings(f: seq<Tree>, polygon: Ring)
    ensures |polygon| == 0 ==> AddPolygon(f, polygon) == f
    ensures |polygon| > 0 ==> Rings(AddPolygon(f, polygon)) == Rings(f) + multiset{polygon}
    decreases f
  {
    if |polygon| > 0 {
      if |f| == 0 {
        RingsSingle(Node(polygon, []));
      } else {
        var i := FirstContaining(f, polygon[0], 0);
        if i < |f| {
          var sub := AddPolygon(f[i].children, polygon);
          assert AddPolygon(f, polygon) == f[i := Node(f[i].polygon, sub)];
          AddPolygonRings(f[i].children, polygon);
          RingsUpdate(f, i, Node(f[i].polygon, sub));
          assert TreeRings(Node(f[i].polygon, sub)) == TreeRings(f[i]) + multiset{polygon};
          MultisetCancel(Rings(f[i := Node(f[i].polygon, sub)]), Rings(f) + multiset{polygon}, TreeRings(f[i]));
        } else {
          AddBesideRings(f, polygon);
        }
      }
    }
  }

  /** The tree built from a list of rings stores exactly its non-empty
      rings. */
  lemma {:induction false} BuildRings(rings: seq<Ring>)
    ensures WellFormed(Build(rings))
    ensures Rings(Build(rings)) == multiset(NonEmpty(rings))
    decreases |rings|
  {
    if |rings| > 0 {
      var init := rings[..|rings| - 1];
      BuildRings(init);
      AddPolygonWellFormed(Build(init), rings[|rings| - 1]);
      AddPolygonRings(Build(init), rings[|rings| - 1]);
    }
  }

  // ---------------------------------------------------------------------
  // flatten emits every stored ring once, oriented

  lemma {:induction false} AllRingsAppend(x: seq<Polygon>, y: seq<Polygon>)
    ensures AllRings(x + y) == AllRings(x) + AllRings(y)
    decreases |x|
  {
    if |x| > 0 {
      assert (x + y)[1..] == x[1..] + y;
      AllRingsAppend(x[1..], y);
    } else {
      assert x + y == y;
    }
  }

  lemma ReorientedAppend(o1: seq<Ring>, r1: seq<Ring>, o2: seq<Ring>, r2: seq<Ring>)
    requires Reoriented(o1, r1) && Reoriented(o2, r2)
    ensures Reoriented(o1 + o2, r1 + r2)
  {
    forall k | 0 <= k < |o1 + o2| ensures (o1 + o2)[k] == (r1 + r2)[k] || (o1 + o2)[k] == Reverse((r1 + r2)[k]) {
      if k >= |o1| {
        assert (o1 + o2)[k] == o2[k - |o1|] && (r1 + r2)[k] == r2[k - |r1|];
      }
    }
  }

  lemma HolesReoriented(gs: seq<Tree>)
    ensures Reoriented(HolesOf(gs), Polys(gs))
  {
  }

  lemma {:induction false} FlattenReoriented(f: seq<Tree>)
    ensures Reoriented(AllRings(Flatten(f)), TreeOrder(f))
    decreases f
  {
    if |f| > 0 {
      var t := f[0];
      var shape := [ContourOf(t.polygon)] + HolesOf(t.children);
      assert [shape][1..] == [];
      AllRingsAppend([shape] + FlattenKids(t.children), Flatten(f[1..]));
      AllRingsAppend([shape], FlattenKids(t.children));
      KidsReoriented(t.children);
      FlattenReoriented(f[1..]);
      HolesReoriented(t.children);
      ReorientedAppend([ContourOf(t.polygon)], [t.polygon], HolesOf(t.children), Polys(t.children));
      ReorientedAppend(shape, [t.polygon] + Polys(t.children),
                       AllRings(FlattenKids(t.children)), KidsOrder(t.children));
      ReorientedAppend(shape + AllRings(FlattenKids(t.children)),
                       [t.polygon] + Polys(t.children) + KidsOrder(t.children),
                       AllRings(Flatten(f[1..])), TreeOrder(f[1..]));
    }
  }

  lemma {:induction false} KidsReoriented(gs: seq<Tree>)
    ensures Reoriented(AllRings(FlattenKids(gs)), KidsOrder(gs))
    decreases gs
  {
    if |gs| > 0 {
      FlattenReoriented(gs[0].children);
      KidsReoriented(gs[1..]);
      AllRingsAppend(Flatten(gs[0].children), FlattenKids(gs[1..]));
      ReorientedAppend(AllRings(Flatten(gs[0].children)), TreeOrder(gs[0].children),
                       AllRings(FlattenKids(gs[1..])), KidsOrder(gs[1..]));
    }
  }

  lemma {:induction false} TreeOrderRings(f: seq<Tree>)
    ensures multiset(TreeOrder(f)) == Rings(f)
    decreases f
  {
    if |f| > 0 {
      KidsOrderRings(f[0].children);
      TreeOrderRings(f[1..]);
    }
  }

  lemma {:induction false} KidsOrderRings(gs: seq<Tree>)
    ensures multiset(Polys(gs)) + multiset(KidsOrder(gs)) == Rings(gs)
    decreases gs
  {
    if |gs| > 0 {
      TreeOrderRings(gs[0].children);
      KidsOrderRings(gs[1..]);
      assert Polys(gs) == [gs[0].polygon] + Polys(gs[1..]);
    }
  }

  lemma WellOrientedAppend(x: seq<Polygon>, y: seq<Polygon>)
    requires WellOriented(x) && WellOriented(y)
    ensures WellOriented(x + y)
  {
    forall i | 0 <= i < |x + y| ensures (x + y)[i] == if i < |x| then x[i] else y[i - |x|] {
    }
  }

  /** The contour and holes of one emitted polygon are oriented. */
  lemma ShapeOriented(t: Tree)
    ensures WellOriented([[ContourOf(t.polygon)] + HolesOf(t.children)])
  {
    ReverseOrientation(t.polygon);
    var shape := [ContourOf(t.polygon)] + HolesOf(t.children);
    forall j | 1 <= j < |shape| && |shape[j]| > 2 ensures IsClockwise(shape[j]) {
      var g := t.children[j - 1].polygon;
      assert shape[j] == HoleOf(g);
      ReverseOrientation(g);
    }
  }

  lemma {:induction false} FlattenWellOriented(f: seq<Tree>)
    ensures WellOriented(Flatten(f))
    decreases f
  {
    if |f| > 0 {
      ShapeOriented(f[0]);
      KidsWellOriented(f[0].children);
      FlattenWellOriented(f[1..]);
      var shape := [ContourOf(f[0].polygon)] + HolesOf(f[0].children);
      WellOrientedAppend([shape], FlattenKids(f[0].children));
      WellOrientedAppend([shape] + FlattenKids(f[0].children), Flatten(f[1..]));
    }
  }

  lemma {:induction false} KidsWellOriented(gs: seq<Tree>)
    ensures WellOriented(FlattenKids(gs))
    decreases gs
  {
    if |gs| > 0 {
      FlattenWellOriented(gs[0].children);
      KidsWellOriented(gs[1..]);
      WellOrientedAppend(Flatten(gs[0].children), FlattenKids(gs[1..]));
    }
  }
}
