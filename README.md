# svg-to-stl in Dafny

A Dafny model of the core of svg-to-stl. The program turns the coloured
paths of an SVG drawing into a 3D mesh that can be printed: each colour gets
a depth, every shape is extruded to its depth and set on a base plate, and the
result is a closed triangle mesh.

The model covers the parts of `js/SVGtoSTL.js`, `js/box.js` and
`js/worker.js` that do not depend on an outside library:

- the containment tree (`TreeNode`), which sorts rings into polygons with
  holes and fixes their winding with the shoelace test (`Forest`,
  `Geometry`);
- the ring clean-up steps of `SVG3DScene`, run over the scene's `paths` and
  `depths` fields (class `Scene.SVG3DScene`):
  - removing consecutive duplicate points (`Cleanup`);
  - snapping nearby vertices of different rings onto their mean
    (`Snapping`);
  - inserting the vertices of other shapes into segments they lie on
    (`Fill`);
  - the rectangular and squared base plate (`Plate`);
- the repair of a shape's triangulation (`Repair`):
  - orphan vertices are spliced into a triangle next to their ring
    neighbours;
  - ring edges missing from the triangulation are reintroduced by splitting
    the triangle whose side best matches them;
- the assembly of the mesh from the triangulated shapes (`Extrusion`);
- its boundary and non-manifold edge analysis (`Meshes`);
- the vertical side walls raised along its boundary (`Walls`);
- the bounding box class `Box` (`Boxes`);
- the colour handling of the worker (class `Colours.ColourDepths`):
  - parsing hex colours;
  - the depth cache;
  - the palette table.

Coordinates are exact `real`s. A method that rewrites state in place is
proved against a specification function of its inputs. The properties
promised by the code are proved as lemmas about those functions. Where the
source behaves differently from its evident intent, a Boolean parameter
(`fixedRef`, `intended`) or a second member selects the written or the
corrected behaviour. Each such case is listed under "Findings".

## Model

| member | source | states |
|---|---|---|
| Geometry.DistanceSqrd | js/SVGtoSTL.js:139-143 | the squared distance is never negative |
| Geometry.DistanceSqrdPointSegment | js/SVGtoSTL.js:146-164 | -1 exactly when the segment is not longer than epsilon or the perpendicular foot falls outside it; otherwise the squared distance from the point to that foot |
| Geometry.FootIsNearest | js/SVGtoSTL.js:146-164 | the foot is the point of the line through A and B nearest to C, so a non-negative result is the squared distance to the segment |
| Geometry.Clockwise | js/SVGtoSTL.js:195-212 | the loop computes the shoelace test: false for at most two points, otherwise sum >= 0 |
| Geometry.ReverseOrientation | js/SVGtoSTL.js:195-212 | reversing a path of more than two points that is not clockwise makes it clockwise; reversing a clockwise path makes its sum non-positive |
| Geometry.ShoelaceReverse | js/SVGtoSTL.js:203-209 | reversing a path negates its signed sum |
| Geometry.Reverse | js/SVGtoSTL.js:268-275 | the reversed ring has the same length, with point k taken from position n-1-k |
| Geometry.ReverseReverse | js/SVGtoSTL.js:268-275 | reversing twice gives the ring back |
| Geometry.RayCast | js/SVGtoSTL.js:175-193 | the loop computes the ray-casting parity that Inside defines |
| Geometry.CrossingBetween | js/SVGtoSTL.js:186-189 | the crossing abscissa of a side lies at most at the larger abscissa of its ends |
| Geometry.NoCrossingLeftSide | js/SVGtoSTL.js:186-189 | a side whose two ends lie at or left of the point is never crossed |
| Geometry.RightOfAllIsOutside | js/SVGtoSTL.js:175-193 | a point at or right of every vertex is never inside |
| Forest.FirstContaining | js/SVGtoSTL.js:236-245 | the first child whose ring contains the point, or none, with no child before it containing the point |
| Forest.Select | js/SVGtoSTL.js:247-249 | the filter keeps only children of the original list whose first point is (or is not) inside the ring, and no more of them than there are |
| Forest.SelectAppend | js/SVGtoSTL.js:247-249 | the filter keeps the children in order: filtering two lists in turn is filtering their concatenation |
| Forest.AddPolygonWellFormed | js/SVGtoSTL.js:227-260 | addPolygon only ever stores non-empty rings |
| Forest.AddPolygonRings | js/SVGtoSTL.js:227-260 | an empty ring leaves the tree unchanged; a non-empty ring is stored exactly once more, and no ring is lost when children are re-parented |
| Forest.AddBesideRings | js/SVGtoSTL.js:246-257 | re-parenting the contained children under the new node, or adding it as a sibling, keeps every ring and adds the new one once |
| Forest.RingsSelect | js/SVGtoSTL.js:247-249 | the two complementary filters together hold exactly the children's rings |
| Forest.BuildRings | js/SVGtoSTL.js:292-313 | the tree built from a list of rings holds exactly its non-empty rings, with multiplicity |
| Forest.HolesOf | js/SVGtoSTL.js:266-272 | one hole per child, in order, each the child's ring oriented clockwise |
| Forest.HolesReoriented | js/SVGtoSTL.js:266-272 | each hole is its child's ring, either kept or reversed |
| Forest.FlattenReoriented | js/SVGtoSTL.js:262-285 | flatten emits the stored rings in tree order, each either kept or reversed |
| Forest.TreeOrderRings | js/SVGtoSTL.js:262-285 | the tree order lists every stored ring exactly once |
| Forest.ShapeOriented | js/SVGtoSTL.js:266-276 | an emitted contour of more than two points has a non-positive sum, and every emitted hole of more than two points is clockwise |
| Forest.FlattenWellOriented | js/SVGtoSTL.js:262-285 | every polygon flatten emits is oriented that way |
| Forest.SplitIntoShapes | js/SVGtoSTL.js:292-304 | fails exactly when the first ring is empty, where the type test throws; otherwise the polygons are the flattened tree of the rings: the non-empty rings, each once, kept or reversed, contours non-positive and holes clockwise |
| Forest.SplitGroupsIntoShapes | js/SVGtoSTL.js:292-313 | the same for a list of lists of rings, taken in order, failing exactly when the first group is empty |
| Forest.AddGroup | js/SVGtoSTL.js:306-308 | the inner loop adds the rings of one group to the tree in order |
| Forest.NonEmpty | js/SVGtoSTL.js:228-230 | the rings addPolygon keeps are the non-empty ones |
| Boxes.Box.constructor | js/box.js:9-15 | the new box has the given sides and validity |
| Boxes.Box.ToRBushItem | js/box.js:20-22 | the item spans exactly the points the box encloses |
| Boxes.Box.GetMaximumSize | js/box.js:24-31 | the larger of the width and the height |
| Boxes.Box.Center | js/box.js:51-53 | the point halfway between the left and right sides and between the top and bottom |
| Boxes.Box.Add | js/box.js:33-40 | the box becomes the side-wise min/max with a valid argument; an invalid argument changes nothing |
| Boxes.Box.AddPoint | js/box.js:42-49 | a valid box grows to the point; an invalid one stays as it is |
| Boxes.AddGrows | js/box.js:33-40 | add covers the receiver and a valid argument, ignores an invalid one, and never reads or changes the receiver's flag |
| Boxes.AddPointGrows | js/box.js:42-49 | addPoint on a valid box encloses the point and every point enclosed before; on an invalid box it changes nothing |
| Boxes.Box.Invalid | js/box.js:55-57 | Box.invalid() is (0,0,0,0,false) |
| Boxes.Box.FromPath | js/box.js:96-105 | the box of the path as the fold of addPoint over it specifies it |
| Boxes.PathRectExact | js/box.js:96-105 | an empty path gives the invalid box; otherwise the box is valid, encloses every point and each side is the x or y of some point |
| Boxes.XY | js/box.js:108-118 | the x, y part of each vertex, in order |
| Boxes.Box.FromXY | js/box.js:108-118 | the box of the vertices' x, y parts |
| Boxes.Box.FromPaths | js/box.js:59-70 | the box of the first path with the box of each later path added |
| Boxes.PathsRectEncloses | js/box.js:59-70 | the box encloses every point of every path; it is valid exactly when the first path is non-empty |
| Boxes.PathsRectCons | js/box.js:59-70 | the box of a path followed by others is the path's box with the others' boxes added one by one |
| Boxes.Box.FromShape | js/box.js:73-81 | the box of the polyline, with the box of the holes added when there are any |
| Boxes.ShapeRectEncloses | js/box.js:73-81 | the box encloses the polyline and, when there are no holes or the first hole is non-empty, every hole point; its flag is that of the polyline's box |
| Boxes.ShapeRectMatchesRings | js/box.js:59-81 | a shape's box is the box of its polyline followed by its holes |
| Boxes.Box.FromShapes | js/box.js:83-94 | the first shape's box with each later shape's box added |
| Boxes.ShapesRectEncloses | js/box.js:83-94 | the box encloses every polyline point and each counted hole point of each shape; its flag is the first shape's |
| Boxes.Box.FromRingShapes | js/SVGtoSTL.js:386-397 | the box of shapes given as lists of rings, as getBoundsOfShapes uses it |
| Boxes.RingShapesRectEncloses | js/SVGtoSTL.js:386-397 | that box encloses every point of every ring of every shape whose first ring is non-empty; it is valid exactly when the first ring of the first shape has a point |
| Boxes.AddAllAssociative | js/box.js:59-70 | adding the folded box of several paths equals adding each path's box in turn |
| Cleanup.DedupProperties | js/SVGtoSTL.js:468-477 | the cleaned ring is a subsequence of the original that keeps its first point and has no two equal neighbours |
| Cleanup.DedupIdempotent | js/SVGtoSTL.js:468-477 | cleaning twice equals cleaning once |
| Cleanup.DedupFixpoint | js/SVGtoSTL.js:468-477 | a ring without equal neighbours is left as it is |
| Cleanup.DedupUpToFacts | js/SVGtoSTL.js:471-473 | the filter keeps each point that differs from its predecessor, the first point and the last |
| Cleanup.Epsilon | js/SVGtoSTL.js:1230 | 0.1 ** (precision + 4), which is positive, and a power of ten for a negative exponent |
| Scene.SVG3DScene.constructor | js/SVGtoSTL.js:434-454 | the scene holds the given paths, depths and precision, with no shapes yet |
| Scene.SVG3DScene.RemoveConsecutiveDoubles | js/SVGtoSTL.js:468-477 | every ring of every shape is replaced by its cleaned form, with the shape and ring counts kept |
| Fill.InsertFromSpec | js/SVGtoSTL.js:1234-1248 | the point goes in at the first segment that hits it, or nowhere |
| Fill.InsertPointSpec | js/SVGtoSTL.js:1229-1252 | a ring of at most one point comes back unchanged; otherwise the point goes in once, at the first segment whose foot is within epsilon and whose two ends are farther than epsilon; the old ring stays a subsequence; nothing else is added |
| Scene.SVG3DScene.AddPointIfMissing | js/SVGtoSTL.js:1229-1252 | the loop returns the ring with the point inserted at the first hit, keeping the old ring as a subsequence |
| Fill.FillRingSpec | js/SVGtoSTL.js:1259-1266 | offering points to a ring keeps the ring as a subsequence and adds only offered points |
| Fill.FillRingAppend | js/SVGtoSTL.js:1259-1266 | offering two lists one after the other equals offering their concatenation |
| Fill.FillStep | js/SVGtoSTL.js:1256-1269 | one ring's step keeps the layout of the paths |
| Fill.FillStepSpec | js/SVGtoSTL.js:1256-1269 | one ring's step only grows rings and creates no point |
| Fill.FillFold | js/SVGtoSTL.js:1256-1269 | the rings visited in order keep the layout of the paths |
| Fill.FillFoldSpec | js/SVGtoSTL.js:1256-1269 | after any prefix of the visits, every ring has grown and the set of points is the same |
| Fill.FillAllSpec | js/SVGtoSTL.js:1254-1270 | addMissingPoints only grows rings, keeping each old ring as a subsequence, and adds no point the scene did not already have |
| Fill.OtherPointsStep | js/SVGtoSTL.js:1259-1266 | the points offered to a ring are those of every other shape, shape by shape, never its own |
| Fill.FillFoldNext | js/SVGtoSTL.js:1257-1266 | the step for ring j of shape i, in terms of the rings visited before |
| Scene.SVG3DScene.OfferPoints | js/SVGtoSTL.js:1263-1265 | the innermost loop offers the points of one ring, in order |
| Scene.SVG3DScene.OfferShape | js/SVGtoSTL.js:1262-1266 | the two inner loops offer every point of another shape, ring by ring |
| Scene.SVG3DScene.AddPointsOfOtherShapes | js/SVGtoSTL.js:1259-1267 | ring j of shape i receives every point of every other shape, in order |
| Scene.SVG3DScene.FillShapeRings | js/SVGtoSTL.js:1257-1268 | the rings of shape i, each filled in turn, continue the fold |
| Scene.SVG3DScene.FillShapes | js/SVGtoSTL.js:1256-1269 | the outer loop over the shapes gives the fold of addMissingPoints over every shape |
| Scene.SVG3DScene.AddMissingPoints | js/SVGtoSTL.js:1254-1270 | the new paths are the fold over all rings; rings only grow and the set of points is unchanged |
| Snapping.PickSpec | js/SVGtoSTL.js:604-614 | the pick in a ring is its nearest unmarked point closer than distance, and the first found wins a tie; -1 when there is none |
| Scene.SVG3DScene.PickNearest | js/SVGtoSTL.js:604-614 | the k loop returns that pick and its distance |
| Snapping.ToFirstSpec | js/SVGtoSTL.js:599-625 | a cluster starts at the reference point; it takes at most one unmarked point from each later ring, in ring order; the middle is the sum of its points; exactly the picks are marked |
| Scene.SVG3DScene.GetSimilarPointsToFirst | js/SVGtoSTL.js:599-625 | the nested loops return the search ToFirst defines, which satisfies that invariant |
| Scene.SVG3DScene.SearchShape | js/SVGtoSTL.js:602-622 | the rings of one shape continue the search fold |
| Scene.SVG3DScene.SearchShapeRing | js/SVGtoSTL.js:603-622 | ring j of shape i continues the search fold, skipped when it is the reference point's own ring |
| Scene.SVG3DScene.SearchRing | js/SVGtoSTL.js:604-621 | a later ring gives its nearest unmarked point within the distance, which joins the cluster and is marked |
| Snapping.SimilarPointsSpec | js/SVGtoSTL.js:628-645 | the kept clusters share no point, none repeats a point, and each has at least two points in increasing ring order with the mean as middle |
| Scene.SVG3DScene.GetSimilarPoints | js/SVGtoSTL.js:628-645 | the loops return those clusters |
| Scene.SVG3DScene.GatherAll | js/SVGtoSTL.js:630-644 | the three loops return the clusters of the gather fold over every point in visiting order |
| Scene.SVG3DScene.GatherShape | js/SVGtoSTL.js:631-642 | the loops over one shape continue the gather fold |
| Scene.SVG3DScene.GatherRing | js/SVGtoSTL.js:632-641 | a search is started from each unmarked point of one ring |
| Snapping.StickSpec | js/SVGtoSTL.js:650-661 | every point of a cluster takes the cluster's middle, every other point is unchanged, and no ring changes length |
| Snapping.SnapToMean | js/SVGtoSTL.js:628-661 | after stickSimilarCurves every clustered point holds the mean of its cluster's old coordinates, and every other point is unchanged |
| Scene.SVG3DScene.StickCluster | js/SVGtoSTL.js:655-659 | the inner loop sets every point of one cluster to its middle |
| Scene.SVG3DScene.StickSimilarCurves | js/SVGtoSTL.js:650-661 | the new paths are the snapped paths |
| Snapping.SetAt | js/SVGtoSTL.js:658 | writing one point keeps the layout of the paths |
| Snapping.StickPtsAt | js/SVGtoSTL.js:655-659 | after setting a cluster's points, a point holds the middle when it is in the cluster and its old value otherwise |
| Snapping.RunningSumMissesCoincidentPoint | js/SVGtoSTL.js:599-619 | as written a point coincident with the reference point is left out of the cluster once the running sum has moved |
| Snapping.FixedReferenceComplete | js/SVGtoSTL.js:599-625 | compared against the reference point, a cluster holds only points closer than distance to it, and one from every later ring holding such an unmarked point |
| Plate.BufferedSpec | js/SVGtoSTL.js:531-537 | with a positive buffer every side moves out by the same amount, so the grown box covers the old one |
| Plate.SquaredSpec | js/SVGtoSTL.js:542-551 | the squared box has equal sides, the larger of the old ones, the same centre, and covers the old box |
| Plate.PlateRingSpec | js/SVGtoSTL.js:553-557 | the plate ring is closed, lies on the box, and has twice the box's area as its signed sum, so it is clockwise |
| Plate.PlateCoversShapes | js/SVGtoSTL.js:523-557 | a plate that follows the shapes' bounding box lies under every point of every shape |
| Scene.SVG3DScene.BufferBox | js/SVGtoSTL.js:531-537 | fails exactly when the buffer would divide by a zero object width, leaving the box; otherwise the box is grown by baseBuffer / objectWidth times its width on every side |
| Scene.SVG3DScene.SquareBox | js/SVGtoSTL.js:542-551 | the box becomes the square around its centre whose side is its larger side |
| Scene.SVG3DScene.AddBasePlate | js/SVGtoSTL.js:518-579 | fails, storing nothing, exactly when a viewBox entry it reads is missing or the buffer divides by a zero object width; otherwise the plate ring is put first, as a shape of depth 0, in front of the old paths and depths |
| Extrusion.Lift | js/SVGtoSTL.js:1039-1043 | each point lifted to the same height, in order |
| Extrusion.VertexAt | js/SVGtoSTL.js:1039-1043 | point j of shape i is the vertex after the points of the shapes before it, lifted to the shape's height |
| Extrusion.VerticesCount | js/SVGtoSTL.js:1039-1043 | one vertex per point of every shape |
| Extrusion.ShiftAll | js/SVGtoSTL.js:1047-1055 | every face shifted by the same offset, with its winding flipped or not |
| Extrusion.FaceAt | js/SVGtoSTL.js:1047-1055 | triangle j of shape i becomes the face after the triangles of the shapes before it, shifted past those shapes' points |
| Extrusion.FacesUpToIn | js/SVGtoSTL.js:1047-1055 | with valid shapes every id lies between the base and the base plus the points |
| Extrusion.UpperCorners | js/SVGtoSTL.js:1037-1057 | upper triangle (a, b, c) becomes face (a, c, b) over the shape's own points lifted to its depth |
| Extrusion.LowerVertex | js/SVGtoSTL.js:1067-1072 | silhouette point k of shape i follows all upper vertices, at the base height |
| Extrusion.LowerCorners | js/SVGtoSTL.js:1078-1088 | silhouette triangle (a, b, c) keeps its winding, shifted past all upper vertices |
| Extrusion.ExtrudedValid | js/SVGtoSTL.js:1037-1091 | every triangle of the two parts names a vertex of the mesh |
| Extrusion.MinDepthSpec | js/SVGtoSTL.js:1026-1034 | as intended the minimum is at most 0 and at most every depth, and it is 0 or one of the depths |
| Extrusion.MinDepthOfNonNegative | js/SVGtoSTL.js:1026-1034 | with no negative depth the intended minimum is 0 |
| Extrusion.MinDepthBelowZero | js/SVGtoSTL.js:1026-1034 | a shape of depth -1 makes the intended minimum -1 |
| Scene.SVG3DScene.MinShapeDepthAsWritten | js/SVGtoSTL.js:1026-1034 | as written the result is always 0 |
| Scene.SVG3DScene.MinShapeDepth | js/SVGtoSTL.js:1026-1034 | as intended, the smallest depth or 0, at most every depth |
| Scene.SVG3DScene.CreateUpperPart | js/SVGtoSTL.js:1037-1057 | the shapes' points lifted to their depths are appended, with their triangles flipped and shifted past the points before |
| Scene.SVG3DScene.PushVertices | js/SVGtoSTL.js:1039-1043 | the points of every shape are appended, each lifted to the height the level gives its shape |
| Scene.SVG3DScene.LiftPoints | js/SVGtoSTL.js:1040-1042 | the points of one shape are appended at height z, in order |
| Scene.SVG3DScene.PushFaces | js/SVGtoSTL.js:1046-1055 | the triangles of every shape are appended, shifted past the base and the points of the shapes before it |
| Scene.SVG3DScene.ShiftFaces | js/SVGtoSTL.js:1048-1052 | the triangles of one shape are appended with ids shifted by the offset, the last two corners swapped in the upper part |
| Scene.SVG3DScene.CreateLowerPart | js/SVGtoSTL.js:1059-1091 | the silhouette points at minShapeDepth minus baseDepth are appended, that minimum being the written one (0) or the intended one as the flag says, with their triangles shifted past all vertices before |
| Scene.SVG3DScene.Create3DFromShapes | js/SVGtoSTL.js:1215-1227 | upper part, lower part at the written (-baseDepth) or intended base height, then the side walls; every triangle names a vertex of the mesh |
| Extrusion.BaseHeightSpec | js/SVGtoSTL.js:1061 | the intended base lies baseDepth below every shape and never above the written one, which is always -baseDepth |
| Extrusion.BaseAboveShapeAsWritten | js/SVGtoSTL.js:1061 | as written a shape of depth -2 over a base depth of 1 reaches below the base at -1; as intended the base is at -3 |
| Scene.SVG3DScene.SetFilledShapes | js/SVGtoSTL.js:1287-1288 | the triangulated shapes and silhouette are stored; paths, depths and precision are unchanged |
| Scene.ExtrudedFromParts | js/SVGtoSTL.js:1215-1227 | the two parts together are the extruded mesh, and its triangles name its vertices |
| Meshes.SidesPrefixStep | js/SVGtoSTL.js:1372-1375 | the sides of a face are visited from corner j to corner j+1 mod 3 |
| Meshes.Without | js/SVGtoSTL.js:1376 | the filter removes every copy of the edge and nothing else |
| Meshes.GetBoundaryEdges | js/SVGtoSTL.js:1365-1383 | the loop computes the boundary fold over the sides in face order |
| Meshes.BoundaryInvariant | js/SVGtoSTL.js:1365-1383 | the result never holds an edge together with its reverse, and every kept pair is a directed side of some face |
| Meshes.BoundaryRemoved | js/SVGtoSTL.js:1365-1383 | a non-degenerate side is gone once its reverse appears later and the side does not come back |
| Meshes.BoundaryKept | js/SVGtoSTL.js:1365-1383 | a side whose reverse is not a side of any face is kept |
| Meshes.BoundaryEdgesSpec | js/SVGtoSTL.js:1365-1383 | the three properties above for the sides of a mesh |
| Meshes.GetNonValidEdgesAsWritten | js/SVGtoSTL.js:1326-1363 | as written the result is only the degenerate sides [v, v], in face order |
| Meshes.GetNonValidEdges | js/SVGtoSTL.js:1326-1363 | with the counter filled, the degenerate sides followed by every undirected edge not shared by exactly two sides, in first-occurrence order |
| Meshes.TallySide | js/SVGtoSTL.js:1333-1349 | one side of a face takes one step of the tally: pushed when degenerate, and its ordered key counted and recorded on first sight |
| Meshes.ReportNotTwice | js/SVGtoSTL.js:1356-1360 | the corrected loop, with the push braced under the test, emits the keys whose count is not 2 |
| Meshes.CountMapSpec | js/SVGtoSTL.js:1344-1349 | the filled counter holds each key with its number of occurrences |
| Meshes.TallyFoldSpec | js/SVGtoSTL.js:1331-1353 | after the sides, the tally holds the degenerate sides, the count of every key and the keys in first-occurrence order |
| Meshes.DegenerateSpec | js/SVGtoSTL.js:1335-1337 | the degenerate list holds exactly the sides with equal ends |
| Meshes.FirstOccurrencesSpec | js/SVGtoSTL.js:1356 | the map's keys are each key once |
| Meshes.NotTwiceSpec | js/SVGtoSTL.js:1357-1359 | the report of the braced loop holds exactly the keys whose count is not 2 |
| Meshes.UnbracedSpec | js/SVGtoSTL.js:1356-1360 | as written, one push per key, a throw exactly when the first key counts 2, and the braced report when no key counts 2 |
| Meshes.LastNotTwiceFirst | js/SVGtoSTL.js:1357-1358 | the hoisted `v` is still undefined exactly when every key so far counted 2 |
| Meshes.UnbracedReportRepeats | js/SVGtoSTL.js:1356-1360 | as written a key counted twice repeats the key before it and a first key counted twice throws; the braced loop reports the first key alone |
| Meshes.KeysSpec | js/SVGtoSTL.js:1339-1343 | the keys are the sides with their ends ordered larger first |
| Meshes.NonManifoldHas | js/SVGtoSTL.js:1326-1363 | an undirected edge is reported exactly when some side has it and it is not shared by exactly two sides |
| Meshes.NonManifoldOnce | js/SVGtoSTL.js:1356-1360 | no undirected edge is reported twice |
| Meshes.LoneTriangleUnreported | js/SVGtoSTL.js:1344-1350 | as written a lone triangle reports nothing, though each of its edges borders one face; with the counter filled all three are reported |
| Walls.SameLocationSpec | js/SVGtoSTL.js:1094-1103 | the other vertices at the same (x, y), exactly, in increasing order |
| Walls.GetPointsSame2DLocationPt | js/SVGtoSTL.js:1094-1103 | the loop returns that list |
| Walls.SameLocationMapKeys | js/SVGtoSTL.js:1105-1118 | the keys are exactly the ends of the boundary edges, each mapped to its same-location list |
| Walls.GetPointsSame2DLocation | js/SVGtoSTL.js:1105-1118 | the loop builds that map, filling a key on its first visit |
| Walls.EndpointsSpec | js/SVGtoSTL.js:1108-1115 | an id is visited exactly when it is an end of some edge |
| Walls.OtherEdges | js/SVGtoSTL.js:1122-1128 | getOtherEdges keeps only boundary edges |
| Walls.OtherEdgesSpec | js/SVGtoSTL.js:1122-1128 | it keeps exactly the boundary edges the filter accepts |
| Walls.OtherEdgesSameLocation | js/SVGtoSTL.js:1122-1128 | the other edges are the boundary edges, other than the edge, over the same two (x, y) locations in either direction without using its ends |
| Walls.IsUpperEdgeSpec | js/SVGtoSTL.js:1130-1138 | an edge is upper exactly when no other edge over the same segment starts higher |
| Walls.NoneAboveSpec | js/SVGtoSTL.js:1133-1136 | the scan finds no higher start exactly when every remaining start is not higher |
| Walls.SortByZ | js/SVGtoSTL.js:1152-1153 | the sort by z is a permutation |
| Walls.SortByZSorted | js/SVGtoSTL.js:1152-1153 | the sort leaves the ids ascending by z |
| Walls.SortByZHas | js/SVGtoSTL.js:1152-1153 | the sort keeps exactly the ids of the side |
| Walls.SortByZStable | js/SVGtoSTL.js:1152-1153 | the sort is stable: for every z, the ids at that z come out in their order in the side |
| Walls.LocalEdgesSpec | js/SVGtoSTL.js:1146-1150 | the local edges are exactly the boundary edges joining the two sides |
| Walls.EdgeVerticesSpec | js/SVGtoSTL.js:1154-1156 | the edge vertices are exactly the ends of the local edges |
| Walls.TrimSpec | js/SVGtoSTL.js:1158-1162 | the shift and pop loops keep the stretch of the side from its first to its last edge vertex |
| Walls.TrimHas | js/SVGtoSTL.js:1158-1162 | trimming keeps every edge vertex of the side and adds nothing |
| Walls.TrimSorted | js/SVGtoSTL.js:1158-1162 | a stretch of a sorted side is sorted |
| Walls.TrimSide | js/SVGtoSTL.js:1158-1162 | the while loops on one side compute that stretch |
| Walls.JoinedSides | js/SVGtoSTL.js:1143-1165 | a joining boundary edge puts an edge vertex on each sorted side, so the loops end |
| Walls.FilterVerticesBetweenEdges | js/SVGtoSTL.js:1143-1165 | each side becomes its column: sorted by z, trimmed to the stretch between edge vertices |
| Walls.ColumnShape | js/SVGtoSTL.js:1143-1165 | a column is non-empty, sorted by z, and starts and ends at edge vertices |
| Walls.ColumnHas | js/SVGtoSTL.js:1143-1165 | a column keeps every edge vertex of its side and adds nothing |
| Walls.WallSpec | js/SVGtoSTL.js:1177-1189 | a wall has one triangle per column step on each side, fanning from the other column's end, with corners only from the columns |
| Walls.PushWall | js/SVGtoSTL.js:1177-1189 | the two push loops append exactly the wall faces |
| Walls.AddSideFromEdge | js/SVGtoSTL.js:1167-1191 | the faces of the wall along one edge are appended and the vertices kept |
| Walls.AddSideFromEdges | js/SVGtoSTL.js:1193-1200 | the walls of the upper boundary edges are appended, in edge order |
| Walls.AddWallOfEdge | js/SVGtoSTL.js:1195-1197 | one turn of the edge loop appends the wall of edge i, which is empty unless the edge is an upper edge |
| Walls.SideFacesIn | js/SVGtoSTL.js:1167-1191 | every corner of a wall face is a vertex of the mesh |
| Walls.AddSides | js/SVGtoSTL.js:1202-1213 | the boundary edges, the same-location map and the walls of the upper edges appended to the faces |
| Walls.SideWallsValid | js/SVGtoSTL.js:1202-1213 | addSides keeps the vertices and old faces, and every new face names a vertex |
| Repair.IndexOf | js/SVGtoSTL.js:768-769 | the first position of the id in the triangle, or -1 exactly when it is absent |
| Repair.WalkCovers | js/SVGtoSTL.js:747-762 | the cyclic walk is back at id after n steps and not before, and reaches every other index |
| Repair.NeighborSpec | js/SVGtoSTL.js:747-762 | null exactly when every other entry is 0; otherwise an index other than id with a non-zero entry, and every index stepped over holds 0 |
| Repair.FindNeighborNotNull | js/SVGtoSTL.js:747-762 | the do-while returns that neighbour |
| Repair.FirstWithBoth | js/SVGtoSTL.js:767-777 | the first triangle from i on holding both points, none before it |
| Repair.SplitAt | js/SVGtoSTL.js:766-780 | null exactly when no triangle holds both points; otherwise the first that does, once with p1 and once with p2 replaced by the new point |
| Repair.FindAndSplitTriangle | js/SVGtoSTL.js:766-780 | the scan returns that split |
| Repair.SplitAtIn | js/SVGtoSTL.js:766-780 | the split triangles name only points the triangulation can name |
| Repair.Counts | js/SVGtoSTL.js:785-800 | entry v of nbTriangles counts the corners that are v |
| Repair.CountTriangles | js/SVGtoSTL.js:785-800 | the counting loop computes those counts |
| Repair.UsesZero | js/SVGtoSTL.js:796-805 | a count is 0 exactly when no triangle uses the vertex |
| Repair.OrphanNeighboursSpec | js/SVGtoSTL.js:803-812 | for an unused vertex, its nearest used ring neighbours backward and forward; none when it is used or no other ring vertex is |
| Repair.FindOrphanNeighbours | js/SVGtoSTL.js:803-812 | the two neighbour searches, made only for an unused vertex |
| Repair.ApplySplit | js/SVGtoSTL.js:816-820 | the split triangle is overwritten by the first piece, the second is pushed, the rest are kept |
| Repair.OrphanResolved | js/SVGtoSTL.js:803-826 | an orphan whose neighbours share a triangle changes exactly one triangle and appends one, and every other triangle is kept |
| Repair.OrphanPlaced | js/SVGtoSTL.js:803-826 | the count grows by one exactly when some triangle holds both neighbours; otherwise nothing changes |
| Repair.PlaceOrphan | js/SVGtoSTL.js:805-826 | the loop body for one vertex computes that step |
| Repair.OrphanStep | js/SVGtoSTL.js:803-826 | one step keeps every id below the number of points and only ever adds triangles |
| Repair.AddMissingVerticesOfRing | js/SVGtoSTL.js:803-827 | the j loop over one ring applies the step to each vertex in turn |
| Repair.SplitTrianglesAddMissingVertices | js/SVGtoSTL.js:782-830 | the triangles after every ring's orphans are handled, with the counts taken once before |
| Repair.AddMissingVerticesIn | js/SVGtoSTL.js:782-830 | the repaired triangulation still names only the shape's points and has at least as many triangles |
| Repair.NoOrphansUnchanged | js/SVGtoSTL.js:782-830 | a triangulation that uses every vertex comes back unchanged |
| Repair.StaleCountsLeaveOrphan | js/SVGtoSTL.js:796-826 | the counts are not updated after a split, so a second orphan that needs the first one as a neighbour stays unused |
| Repair.Lengths | js/SVGtoSTL.js:783-794 | one length per ring, in order |
| Repair.FlatLength | js/SVGtoSTL.js:925-929 | the flat vertex list has as many points as the rings together |
| Repair.FlatAt | js/SVGtoSTL.js:925-929 | point j of ring m sits at ring m's offset plus j |
| Repair.EdgesOfRing | js/SVGtoSTL.js:915-923 | a ring gives one edge per point, or none when it has fewer than two points |
| Repair.AddRingEdges | js/SVGtoSTL.js:919-922 | the edges of one ring, starting at flat id nb, are appended |
| Repair.RingEdgesFit | js/SVGtoSTL.js:915-923 | every ring edge's ids locate its points in the flat vertex list |
| Repair.CollectRingEdges | js/SVGtoSTL.js:911-923 | the loop builds the ring edges, numbering on from the previous rings |
| Repair.FlatVertices | js/SVGtoSTL.js:925-929 | the contour, then each hole appended |
| Repair.EdgesContains | js/SVGtoSTL.js:125-132 | true exactly when some side joins the edge's two ids, in either order |
| Repair.Sides | js/SVGtoSTL.js:931-942 | three sides per triangle; entry 3t+i is side (i, i+1 mod 3) of triangle t |
| Repair.AddTriangleSides | js/SVGtoSTL.js:938-940 | the three sides of triangle t are appended, corner i to corner i + 1 mod 3, and the counter ends at 3 |
| Repair.BuildSides | js/SVGtoSTL.js:937-942 | the loop builds that side list |
| Repair.SidesByPos | js/SVGtoSTL.js:937-942 | a list that agrees with the sides position by position is the side list |
| Repair.Missing | js/SVGtoSTL.js:945-946 | the ring edges kept are exactly those no side has |
| Repair.FilterMissing | js/SVGtoSTL.js:945-946 | the filter computes them |
| Repair.DistSpec | js/SVGtoSTL.js:839-858 | a side has a distance exactly when each target end is shared or at a non-negative distance; the distance is never negative |
| Repair.BestUpTo | js/SVGtoSTL.js:838-867 | the best side is the first with the smallest distance, none exactly when no side has a distance |
| Repair.NearestSide | js/SVGtoSTL.js:838-867 | the scan returns that side and the ext flags written into it |
| Repair.SideDistance | js/SVGtoSTL.js:842-860 | a side has a distance exactly when each end of the target is shared with it or projects onto it, and that distance is the sum of the two; an unshared end counts only when the side is longer than epsilon and the end's foot falls on it; the ext flags mark shared ends |
| Repair.SplitOf | js/SVGtoSTL.js:870-901 | the split names the best side's triangle, has two or three pieces, and uses only that triangle's ids and the target's |
| Repair.SplitBest | js/SVGtoSTL.js:870-901 | the branches on the ext flags compute that split |
| Repair.BestSplit | js/SVGtoSTL.js:832-907 | null exactly when no side has a distance, otherwise the split of some side |
| Repair.FindBestMatchingEdge | js/SVGtoSTL.js:832-907 | findBestMatchingEdge returns that split |
| Repair.SplitHoldsTarget | js/SVGtoSTL.js:870-901 | as intended, the split always has a piece holding both ends of the missing edge |
| Repair.ThreeWaySplitIntended | js/SVGtoSTL.js:887-901 | as intended, the three pieces fan from A-N1, N1-N2 and N2-B and are proper triangles |
| Repair.ThreeWaySplitAsWritten | js/SVGtoSTL.js:887-901 | as written the second piece repeats N2 and the third is the unchanged triangle, so for two new points no piece holds the missing edge |
| Repair.RebuildSides | js/SVGtoSTL.js:951-953 | after the overwrite, the three sides of the triangle are rebuilt and the side list matches the triangles again |
| Repair.PushSides | js/SVGtoSTL.js:957-960 | the three sides of the pushed triangle are pushed, leaving the shared counter at 3 |
| Repair.PushTriangle | js/SVGtoSTL.js:955-960 | one piece is pushed with its three sides, the sides staying those of the triangles |
| Repair.PushSplit | js/SVGtoSTL.js:955-961 | as written only the second piece is pushed; as intended every piece after the first |
| Repair.PushSplitStep | js/SVGtoSTL.js:955-961 | one turn of the piece loop keeps the pushed prefix the written or the intended loop defines, and the counter grows |
| Repair.ApplyRepair | js/SVGtoSTL.js:950-961 | the split triangle is replaced by the first piece and the rest kept; the intended loop appends every later piece, the written one only the second |
| Repair.ApplySplitWithSides | js/SVGtoSTL.js:950-961 | overwriting, rebuilding and pushing keep the side list in step with the triangles |
| Repair.RepairStep | js/SVGtoSTL.js:949-965 | one round of the edge loop computes RepairEdge and keeps the side list in step |
| Repair.RepairEdge | js/SVGtoSTL.js:949-965 | one round keeps every id within the points and never loses a triangle |
| Repair.RepairPushesOneAsWritten | js/SVGtoSTL.js:955-961 | as written a round pushes exactly one triangle, so a third piece is lost |
| Repair.RepairKeepsSplitIntended | js/SVGtoSTL.js:955-961 | as intended a round puts the first piece in place and pushes the others in order |
| Repair.RepairEdgePlacesEdge | js/SVGtoSTL.js:947-966 | as intended, for proper triangles with a matching side, the round puts the missing edge into the triangulation |
| Repair.RepairEdges | js/SVGtoSTL.js:947-966 | the edge loop keeps the ids within the points and never loses a triangle |
| Repair.Reintroduced | js/SVGtoSTL.js:909-970 | the same for the whole of reintroduceMissingEdges |
| Repair.ReintroduceMissingEdges | js/SVGtoSTL.js:909-970 | the method returns the repaired triangles as Reintroduced defines them |
| Colours.HexToRgb | js/worker.js:19-26 | non-null exactly for an optional '#' and six hex digits in either case; each value is below 256 |
| Colours.DigitValue | js/worker.js:21-24 | a hex digit's value is below 16 |
| Colours.HexRoundTrip | js/worker.js:19-26 | every colour in range parses back from its spelling |
| Colours.HexToRgbFormats | js/worker.js:19-26 | a parsed colour is spelt by its six digits lower-cased |
| Colours.HexToRgbIgnoresCase | js/worker.js:20 | parsing ignores case |
| Colours.Lower | js/worker.js:31 | lower-casing maps each character |
| Colours.LowerIdempotent | js/worker.js:31 | lower-casing twice is lower-casing once |
| Colours.LookupSpec | js/worker.js:30-41 | the key is lower-cased; a cached entry comes back with the cache unchanged; a miss on a hex colour stores and returns its depth; a miss on anything else throws and leaves the cache (the cache is a map of its own entries only; see "## Left out") |
| Colours.LookupRepeat | js/worker.js:30-41 | a repeated call returns the same value and leaves the cache as the first call left it |
| Colours.LookupIgnoresCase | js/worker.js:31 | the case of the colour does not matter |
| Colours.ColourDepths.constructor | js/worker.js:15 | the cache starts as given |
| Colours.ColourDepths.GetSVGColor | js/worker.js:30-41 | the method returns the lookup's value and the cache becomes what the lookup leaves |
| Colours.Dedup | js/worker.js:46 | the filter keeps each colour once, and exactly the colours of the input |
| Colours.Sort | js/worker.js:46 | the sort is a permutation |
| Colours.SortSorted | js/worker.js:46 | the sort is ordered by character code |
| Colours.PaletteList | js/worker.js:46 | the list holds each colour of the palette once, in sorted order |
| Colours.RowsColours | js/worker.js:47-59 | when no call throws there is one row per non-empty colour, in list order |
| Colours.RowsSpec | js/worker.js:47-59 | each row carries its index in the list and its colour, its colour is now a key of the cache and its depth is the one cached under that key; the cache only grows |
| Colours.RowsAfterThrow | js/worker.js:47-59 | once a call has thrown, nothing more happens |
| Colours.RowsOfHexPalette | js/worker.js:47-59 | a palette of hex colours and empty strings never throws |
| Colours.ColourDepths.SetSVGColors | js/worker.js:42-63 | the rows and the cache are those of the lookups over the sorted, deduplicated list, skipping empty strings |
| Colours.ColourDepths.SetRows | js/worker.js:47-59 | the row loop returns the rows and cache of the lookups over the sorted, deduplicated list |
| Colours.ColourDepths.SetRow | js/worker.js:48-58 | one turn of the row loop continues the rows and the cache, a colour that fails to parse ending the rows |

## Left out

- Rendering, the camera and the wireframe, normal and edge helpers (js/SVGtoSTL.js:1-77), and the DOM, modal and translation scripts: user interface, not logic.
- SVG path parsing and curve discretisation by d3 (js/SVGtoSTL.js:442-446, 491-510): a foreign library. A scene starts from paths already discretized.
- `mergePathsSameDepth` and `clipPathsUsingVisibility` (js/SVGtoSTL.js:667-744): they are polygon union and difference by the martinez library.
- `fillShapes` (js/SVGtoSTL.js:974-1021): it calls THREE's triangulator. The triangulated shapes are an input (`Extrusion.FilledShape`).
- `adjustPathsToPrecision`, `adjustToPrecision`, `truncator` and the `toFixed`/`parseFloat` rounding (js/SVGtoSTL.js:134-137, 456-487): floating-point formatting. The model's coordinates are exact.
- `rescaleAndCenter` (js/SVGtoSTL.js:582-597) and the final `Matrix4` flip and normals of `create3DShape` (js/SVGtoSTL.js:1272-1315): floating-point transforms of the finished mesh.
- The circular base plate (js/SVGtoSTL.js:561-571): it needs cos and sin. Only the rectangular and squared plates are modelled.
- `getExtrudedSvgObject` (js/SVGtoSTL.js:81-111): it only drives the steps that are modelled.
- `clockwise`'s log message for an open ring: output only.
- `inside`'s division is exact here. The model does not capture floating-point rounding near a vertex.
- Worker messaging: `postMessage`, `onmessage`, `importScripts`, `processNewSVG` and `processSVG2Mesh` (js/worker.js:1-9, 66-123).
- The HTML of `setSVGColors`'s table: only which colours get a row, with which index, is kept.
- Colours.ColourDepths.GetSVGColor: the depth formula with `toFixed(2)` (js/worker.js:37) is the parameter `depthOf`, because it is floating-point formatting.
- Colours.ColourDepths.GetSVGColor: the exception thrown on a non-hex colour is the `None` result; the cache is left as it was.
- Colours.ColourDepths.GetSVGColor: the cache is a map holding only the entries stored in it. The source's `colorDepths` is a plain object, so `color in colorDepths` (js/worker.js:32) also holds for keys inherited from Object.prototype, such as `constructor` and `__proto__`. On those keys the source returns the inherited value and does not throw, and setSVGColors then emits a row; the model treats them as non-hex misses and returns `None`.
- Colours.LookupSpec: "a miss on anything else throws" holds for the cache as a map of its own entries; on keys inherited from Object.prototype the source returns the inherited value instead, as the line above says.
- Colours.Lower: lower-cases ASCII letters only. `toLowerCase` also folds other scripts.
- Colours.Sort: orders by character code. JavaScript's default `sort` compares UTF-16 code units, which is the same order for the characters of hex colours.
- Forest.SplitIntoShapes: the tree is a value, not linked nodes. Re-parenting returns a new list, and the in-place reversal of a ring is not shared with the caller's array.
- Forest.SplitIntoShapes: an empty input list gives no polygons. The source returns the input itself in that case, which is also empty.
- Forest.SplitIntoShapes and Forest.SplitGroupsIntoShapes: the TypeError of the type test on an empty first ring or group is the result `ok = false` with no polygons.
- Scene.SVG3DScene.AddBasePlate and Scene.SVG3DScene.BufferBox: where the source builds a plate of NaN or infinite coordinates, from a viewBox shorter than four or a buffer divided by a zero object width, the model reports `ok = false` and stores nothing, because exact reals have no NaN or infinity.
- Plate.Buffered and Plate.PlateRect: defined only for a finite buffer (`FiniteBuffer`). The other case is the failure result of the scene methods above.
- Scene.SVG3DScene.RemoveConsecutiveDoubles, Scene.SVG3DScene.StickSimilarCurves and the other scene methods: arrays shared between rings (aliasing) are not modelled. Each ring is a value.
- Snapping: the "seen" flag the source stores as a third array entry of a point is the set `marks`.
- Snapping: the running sum aliases the reference point's array. This is modelled as a separate sum, which ends in the same state, because that point is never read again before it is overwritten by the mean.
- Repair: `best.ext` is written onto the chosen side's record. The model returns the flags with the chosen side. A stale flag on a record that is not the best is never read, because a record that becomes best gets fresh flags first.
- Repair.FindNeighborNotNull: requires `step` to be 1 or -1, the only values its callers pass.
- Repair.SplitTrianglesAddMissingVertices and Repair.ReintroduceMissingEdges: require every triangle id to name a point of the shape, as the triangulator's output does. The source would otherwise index past its lists.
- Repair: triangles are index triples, and in-place writes into the caller's array are returned as a new sequence.
- Repair: the `console.log` for a ring edge with no matching side is output only. The loop goes on without a change, as in the source.
- Geometry.DistanceSqrdPointSegment: requires a non-negative epsilon. Every caller passes a positive constant. A negative one would divide by zero in the source.
- Boxes: `js/SVGtoSTL.js:325-420` duplicates the class. It is modelled once. Its `fromShapes`, which takes a shape as a list of rings, is `Boxes.Box.FromRingShapes`.

## Findings

| source | as written | input that shows it | evidently intended | confidence | as-written member | corrected member |
|---|---|---|---|---|---|---|
| js/SVGtoSTL.js:1344-1350 | `nbHalfEdges[key];` reads the counter instead of setting it to 1, so the counter stays empty and the `!= 2` loop reports nothing | a lone triangle [0, 1, 2]: no edge is reported, though each borders one face | `nbHalfEdges[key] = 1;`, together with the braces of the next row, so edges not shared by exactly two faces are reported | high, not executed | Meshes.GetNonValidEdgesAsWritten | Meshes.GetNonValidEdges |
| js/SVGtoSTL.js:1357-1359 | without braces the `if` guards only the hoisted `var v = e.split(",")`, so every key pushes the last `v` whose count was not 2 | once the counter is filled: keys 1,0 counted once and 2,1 counted twice report 1,0 twice; a first key counted twice throws a TypeError | braces around both statements, pushing only the keys whose count is not 2 | high, not executed | Meshes.UnbracedReportRepeats | Meshes.NotTwiceSpec |
| js/SVGtoSTL.js:1030-1031 | `this.shapes.depth` reads a property of the list, which is undefined, so the test never holds | one shape of depth -1: the result is 0 | `this.shapes[i].depth`, the smallest depth or 0 | high, not executed | Scene.SVG3DScene.MinShapeDepthAsWritten | Scene.SVG3DScene.MinShapeDepth |
| js/SVGtoSTL.js:1061 | createLowerPart takes the written minShapeDepth, always 0, so the base sits at -baseDepth whatever the depths | one shape of depth -2 and baseDepth 1: the base is at -1, above the shape's surface at -2 | the base baseDepth below the lowest shape | high, not executed | Extrusion.BaseAboveShapeAsWritten | Extrusion.BaseHeightSpec |
| js/SVGtoSTL.js:895-898 | `t2[idp1]` is set twice and `t3` is never changed, so the second piece repeats N2 and the third is the original triangle | a side (A, B) of triangle [A, B, C] and a missing edge N1-N2 whose two ends, neither of them A or B, lie near (A, B) and project onto it: no piece holds N1-N2 | `t3[idp1] = idN2`: pieces A-N1, N1-N2 and N2-B | high, not executed | Repair.ThreeWaySplitAsWritten | Repair.ThreeWaySplitIntended |
| js/SVGtoSTL.js:955-961 | the inner loop reuses `i`, which ends at 3, so the outer loop stops after pushing `after[1]` | any three-way split: its third piece is never pushed | a separate counter for the inner loop, pushing every piece after the first | high, not executed | Repair.RepairPushesOneAsWritten | Repair.RepairKeepsSplitIntended |
| js/SVGtoSTL.js:599-618 | `sim.middle` is the reference point's own array and accumulates the running sum, so later rings are compared against the sum | three rings each holding (1, 1), distance 1: the third copy is left out | comparing against the reference point, so every later ring holding a close unmarked point contributes one | medium, not executed | Snapping.RunningSumMissesCoincidentPoint | Snapping.FixedReferenceComplete |
