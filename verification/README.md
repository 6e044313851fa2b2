# liblwgeom and the Yukon grid coder, modelled and proved

Eight algorithmic cores of PostGIS's liblwgeom and of Yukon's grid coder, each modelled step by step and proved to
do what it is for. `dafny verify dfyconfig.toml` checks everything.

- **Line simplification** (`IndexedHeap`, `EffectiveArea`, `EffectiveAreaStart`, `EffectiveAreas`). The
  Visvalingam-Whyatt loop over an array heap of keys, back-pointers into the heap and a doubly linked list of live
  points. The loop is a function on values whose invariant every round keeps; the class `Areas` changes the arrays in
  place and is proved to compute that function. The loop is then shown to be the naive algorithm that looks for the
  smallest triangle afresh every time.
- **The circle tree** (`Sphere`, `CircTree`, `CircMerge`, `CircDistance`, `CircIndex`, `CircStab`, `Sorting`). Bottom-up
  merging, pruned containment and branch-and-bound distance, each against a linear scan of the leaf edges; merging and
  search together; and what a stab line counts where it runs through vertices. The sphere is any metric of angles with
  the primitives of lwgeodetic.c; what is assumed of them is `Sphere.Sound`, and `Sphere.Globe` has a witness.
- **The serialized geometry** (`Gserialized`, `GserializedBuffer`, `GserializedHeader`). Layout, predicted size,
  writers into a byte array, readers with one or two cursors, header, and the walk that looks for emptiness.
- **Cells of a grid** (`GridCells`, `GridSets`). Quadtree cells on 64-bit Morton codes and the two-pointer merges over
  sorted arrays of cells of different levels. A mask that keeps the high 2L bits is written as dividing by four and
  multiplying by four, 32 - L times.
- **The code of a cell** (`GridCodec`). Interleaving with magic masks, printing and reading digits. A machine
  word is the sequence of its bits, with shifts and masks defined bit by bit.
- **Geohash** (`Geohash`, `GeohashLoops`). Encoder, decoder, and the loop that finds how long a hash may be.
- **Point sets** (`Thinning`, `Boundary`). Thinning a multipoint in place, and the mod-2 boundary of a multi-curve.
- **The lookup3 hash** (`Lookup3`, `HashLittle`). The reversible mixers and three ways to read a key.

Doubles are reals. Triangle areas, the sphere and the order in which `qsort` leaves equal keys are arbitrary.
Error messages are results. `Basics` and `GeomTypes` hold what several modules share.

Where a promise is false of the code, the code is kept, an input that breaks the promise is given, and the exact
condition under which it holds is proved:

- Merging circles whose centres are equal up to the tolerance ignores the second radius: the node over two such trees
  encloses what is below it exactly if the first circle, widened by twice the distance of the centres, does. A point at
  the middle of an edge, merged before the edge, is enough (`CircMerge.TwinsEnclosed`, `CircMerge.LargerTwinIsLost`).
- The distance search never looks at the pairs below a leaf of collection type, such as a multipoint with one
  non-empty member. Without threshold and polygons, the result is the least distance exactly if the descent comes to a
  nearest pair (`CircDistance.TreeDistance`, `CircDistance.SettledIsFound`, `CircDistance.LonePointIsLost`).
- Ellipses and beziers without points are written, and the reader leaves their point arrays unset. What is written comes
  back as it was exactly if there are none, and no part of a type its collection does not allow
  (`Gserialized.ReadBackExactly`, `Gserialized.EmptyEllipseIsUnset`).
- The walk over the buffer steps over the head of an ellipse without points but not over its shape. As long as nothing
  it would have to look at comes after such an ellipse, it disagrees with `lwgeom_is_empty` exactly about two families:
  empty geometries with a hollow polygon, one whose first ring is there but has no points, and geometries without counts
  that have an ellipse or a bezier, which `lwgeom_is_empty` takes for non-empty (`Gserialized.WalkAgrees`,
  `Gserialized.HollowIsMissed`, `Gserialized.CurveIsMissed`). A part behind such an ellipse can be overlooked, whatever
  it is (`Gserialized.EllipseHides`).
- `array_grid_contains` is wrong about an array with a cell inside an outermost cell before it
  (`GridSets.ContainsIsRight`, `GridSets.NestedIsMissed`).
- The precision of a geohash is not always the best one: the loop stops at a middle that the box touches, even where
  points on the middle go with the rest of the box. The best precision is lost exactly if a whole character lies between
  that bit and the first one that parts the box (`GeohashLoops.PrecisionIsBest`, `GeohashLoops.MeridianIsLost`).

Two comments in the source say something else than the code, which the model follows:

- A vertex that only grazes the stab line is said to be counted once, which would throw off the parity
  (liblwgeom/lwgeodetic_tree.c:492-493). Where the line reaches both edges it is counted twice or not at all
  (`CircStab.VertexOnLine`).
- Of points with equal areas the last one is said to be returned (liblwgeom/effectivearea.c:109-111). The comparison puts
  the first one first (`EffectiveAreaStart.KeysInOrder`).

The assertion on the size of a serialized geometry rests on a condition the code leaves to its callers: the box, where a
geometry brings one, has as many bounds as the flags of the geometry say (`GserializedHeader.AssertionHolds`). A box that
`lwgeom_add_bbox` makes takes its flags from the geometry (liblwgeom/lwgeom.c:686-696), and with a foreign one the
assertion fails (`GserializedHeader.ForeignBoxOverruns`).

## Model

| member | source | states |
|---|---|---|
| IndexedHeap.SwapContents | liblwgeom/effectivearea.c:133-141 | Exchanging two keys and repairing both back-pointers keeps treeindex the exact inverse of the heap position and loses no node. |
| IndexedHeap.DownRestores | liblwgeom/effectivearea.c:123-162 | Sifting down repairs a heap with one key too large, keeps the back-pointers exact and every node in the heap. |
| IndexedHeap.UpRestores | liblwgeom/effectivearea.c:169-192 | Sifting up repairs a heap with one key too small, with C's division that makes the root its own parent. |
| IndexedHeap.PopTakesLeast | liblwgeom/effectivearea.c:199-211 | The node popped has the least area, exactly that node leaves, and heap, back-pointers, links and areas of the others stay. |
| IndexedHeap.ReweighKeeps | liblwgeom/effectivearea.c:218-228 | After an area is changed, the update restores heap and back-pointers and changes nothing else. |
| EffectiveArea.StepKeeps | liblwgeom/effectivearea.c:274-337 | Every round keeps the whole invariant: heap order, exact back-pointers, prev and next a strictly increasing chain through the live points, recorded areas. |
| EffectiveArea.NeverOutOfOrder | liblwgeom/effectivearea.c:283-288 | The recorded areas never decrease, forced ones included, so the error about the wrong order is never reported. |
| EffectiveArea.ReadyToPop | liblwgeom/effectivearea.c:274-277 | Whenever the loop goes round again there is a key to pop. |
| EffectiveArea.FullRunEliminatesAll | liblwgeom/effectivearea.c:335 | The full run eliminates every interior point. |
| EffectiveArea.LaterAreasAreLarger | liblwgeom/effectivearea.c:276-288 | The rest of a run changes no recorded area and records only areas at least as large. |
| EffectiveArea.EarlyStopKeepsSame | liblwgeom/effectivearea.c:335 | For every point and threshold, the run that stops early and the full run agree on whether the point is kept. |
| EffectiveArea.StepIsGreedy | liblwgeom/effectivearea.c:276-333 | A round that eliminates an interior point eliminates one of least weight among all live ones and records that weight. |
| EffectiveArea.RunIsGreedy | liblwgeom/effectivearea.c:234-342 | A whole run from any state is a run of the naive algorithm, with the same recorded areas and the same points left. |
| EffectiveAreaStart.OrderIsUnique | liblwgeom/effectivearea.c:105-116 | The comparison function leaves sorting no choice: keys have one sorted order. |
| EffectiveAreaStart.KeysInOrder | liblwgeom/effectivearea.c:105-116 | Of two keys the first has the smaller area, or the same area and the point that comes first in the line. |
| EffectiveAreaStart.FirstOffHeap | liblwgeom/effectivearea.c:105-116 | The first point to come off the heap is the first of those with the least area, if that is below FLT_MAX. |
| EffectiveAreaStart.StartIsInvariant | liblwgeom/effectivearea.c:253-271 | Sorted keys with their references are a heap, and the first state satisfies the invariant. |
| EffectiveAreaStart.SameKept | liblwgeom/effectivearea.c:402-449 | Asking for the areas does not change which points are kept. |
| EffectiveAreaStart.EndsKept | liblwgeom/effectivearea.c:362-363 | The first and the last point are kept exactly if the threshold is at most FLT_MAX. |
| EffectiveAreaStart.EnoughKept | liblwgeom/effectivearea.c:280-283 | At least avoid_collaps points are kept, or all if there are no more. |
| EffectiveAreaStart.FinalIsGreedy | liblwgeom/effectivearea.c:349-398 | The effective areas are those of the naive algorithm on the whole line, which begins with the first of the points of least area. |
| EffectiveAreaStart.OneStart | liblwgeom/effectivearea.c:349-398 | There is exactly one first state, so the outcome is a function of the line. |
| EffectiveAreas.Areas.SiftDown | liblwgeom/effectivearea.c:123-162 | In place, the arrays become the sifted heap. |
| EffectiveAreas.Areas.SiftUp | liblwgeom/effectivearea.c:169-192 | In place, the arrays become the sifted heap. |
| EffectiveAreas.Areas.MinheapPop | liblwgeom/effectivearea.c:199-211 | In place, the heap loses its root, which is returned. |
| EffectiveAreas.Areas.MinheapUpdate | liblwgeom/effectivearea.c:218-228 | In place, the heap is updated at a slot. |
| EffectiveAreas.Areas.EliminateNext | liblwgeom/effectivearea.c:274-340 | One round in place is one step of the function, without the error. |
| EffectiveAreas.Areas.TuneAreas | liblwgeom/effectivearea.c:234-342 | The loop in place ends, never reports the error, and leaves the results of the run. |
| EffectiveAreas.Areas.CalcAreas | liblwgeom/effectivearea.c:349-398 | Preparation and loop give the results of the one possible first state. |
| EffectiveAreas.Areas.SetEffectiveArea | liblwgeom/effectivearea.c:402-449 | Exactly the points to which the naive algorithm gives an area at or above the threshold are kept, in order, with those areas when asked for; of several points with the least area the first is eliminated first. |
| Sphere.LeafGapIsLeast | liblwgeom/lwgeodetic_tree.c:741-813 | At a pair of leaves each branch gives the least distance between the edges and two points that have it. |
| CircTree.OutOfReach | liblwgeom/lwgeodetic_tree.c:513-519 | A stab line that stays outside the circle of a valid tree crosses none of its leaf edges. |
| CircTree.ContainsPoint | liblwgeom/lwgeodetic_tree.c:495-587 | The pruned walk, reduced mod 2 at each node, gives the parity of the crossings with all leaf edges. |
| CircTree.CrossingsOfChildren | liblwgeom/lwgeodetic_tree.c:572-579 | The sum over the children has the parity of the crossings below them. |
| CircStab.CountsExactly | liblwgeom/lwgeodetic.c:3545-3638 | Of the flags of two edges those count that say an edge within reach has exactly one end strictly to the left. |
| CircStab.FlagsMirror | liblwgeom/lwgeodetic.c:3545-3638 | With the edges exchanged the touch flags are exchanged and the others stay. |
| CircStab.PathParity | liblwgeom/lwgeodetic_tree.c:541-567 | Whatever vertices lie on the stab line, the crossings of a path within its reach are odd exactly if the ends of the path are on different sides. |
| CircStab.VertexOnLine | liblwgeom/lwgeodetic_tree.c:541-567 | Two edges that meet on the stab line count once if the path goes through, and twice or not at all if it turns back. |
| CircStab.InsideIsOdd | liblwgeom/lwgeodetic_tree.c:708-739 | A polygon has the point in it exactly if an odd number of its edges count, and not if the stab line keeps out of its circle. |
| CircStab.FirstPointIsFirst | liblwgeom/lwgeodetic_tree.c:461-473 | The point tested is the first vertex of the shape. |
| CircMerge.AbsorbCovers | liblwgeom/lwgeodetic_tree.c:257-329 | A merged circle covers the earlier one, and covers the next one exactly unless they are about one centre and the next is larger. |
| CircMerge.RoundsCover | liblwgeom/lwgeodetic_tree.c:250-331 | There is no larger twin exactly if every round of the loop covers the child it merges. |
| CircMerge.SafeInOnePass | liblwgeom/lwgeodetic_tree.c:410-455 | Up to eight nodes are merged without a larger twin exactly if every round covers the child it merges. |
| CircMerge.TwinsEnclosed | liblwgeom/lwgeodetic_tree.c:287-292 | Of two enclosing nodes with centres equal up to the tolerance, the new node encloses all below it exactly if no point below the second is beyond the first radius plus twice the distance of the centres. |
| CircMerge.LargerTwinIsLost | liblwgeom/lwgeodetic_tree.c:287-292 | A point leaf at the centre of any enclosing node that reaches further, merged before it, gives a node that does not enclose it. |
| CircMerge.AbsorbAllCovers | liblwgeom/lwgeodetic_tree.c:250-331 | Without a larger twin the circle of the new node covers those of all its children. |
| CircMerge.NewNodeEncloses | liblwgeom/lwgeodetic_tree.c:231-349 | Over enclosing nodes without a larger twin, the circle of the new node encloses every leaf point below it. |
| CircMerge.MergedType | liblwgeom/lwgeodetic_tree.c:259-283 | The type of a node is a collection that may have the later children as parts, and exactly when it is a narrower one than an anonymous collection. |
| CircMerge.InternalNew | liblwgeom/lwgeodetic_tree.c:231-349 | The loop over the children computes circle and geometry type of the new node. |
| CircMerge.MergeKeepsEdges | liblwgeom/lwgeodetic_tree.c:410-455 | Merging loses, duplicates and reorders no leaf. |
| CircMerge.MergeEncloses | liblwgeom/lwgeodetic_tree.c:410-455 | When no pass merges a larger twin, the circles of the merged tree enclose everything below them, all the way down. |
| CircMerge.MergeFansOut | liblwgeom/lwgeodetic_tree.c:410-455 | Whatever is merged, every internal node of the result has two to eight children. |
| CircMerge.MergeHeight | liblwgeom/lwgeodetic_tree.c:421-451 | Merging up to 8^k nodes adds at most k levels. |
| CircMerge.HeightAndLeaves | liblwgeom/lwgeodetic_tree.c:421-451 | A tree with two to eight children to a node is lower than it has leaves, and has at most 8^h leaves at height h. |
| CircMerge.MergeGroups | liblwgeom/lwgeodetic_tree.c:423-434 | The inner loop writes parents over children in place and never over one that is still to be read. |
| CircMerge.MergePass | liblwgeom/lwgeodetic_tree.c:421-451 | One round in place leaves the parents of one pass, a solo node promoted unmerged. |
| CircMerge.NodesMerge | liblwgeom/lwgeodetic_tree.c:410-455 | The loop ends and returns the tree of repeated passes, with all leaves in order and two to eight children to a node. |
| CircDistance.BoundsHold | liblwgeom/lwgeodetic_tree.c:590-606 | The distance of any leaf pair lies between the minimum and the maximum distance of the nodes. |
| CircDistance.BoundsOfPoints | liblwgeom/lwgeodetic_tree.c:590-606 | Between two points both bounds are the distance. |
| CircDistance.SortNodes | liblwgeom/lwgeodetic_tree.c:653-673 | The fixed array suffices, the children are permuted and in order of distance. |
| CircDistance.Visit | liblwgeom/lwgeodetic_tree.c:678-864 | The search stops where the threshold or zero is met, prunes where the bounds rule a pair out and else lowers the bound; it keeps both running bounds at or above the least distance, realised by the closest points, and settles every pair the descent comes to, and every polygon hit in reach. |
| CircDistance.VisitLeft | liblwgeom/lwgeodetic_tree.c:821-847 | The loop over the children of the first node does so for all of them. |
| CircDistance.VisitRight | liblwgeom/lwgeodetic_tree.c:830-856 | The loop over the children of the second node does so for all of them. |
| CircDistance.Explore | liblwgeom/lwgeodetic_tree.c:708-862 | So does the rest of it, for trees that their bounds do not rule out. |
| CircDistance.SettledIsFound | liblwgeom/lwgeodetic_tree.c:678-864 | Settled bounds are exact if the descent comes to a nearest pair; without threshold and polygon hit, exactly then. |
| CircDistance.Search | liblwgeom/lwgeodetic_tree.c:608-619 | For all valid trees: what a search from the start finds, with the closest points to it, or nothing; zero for a polygon in reach with a point of the other shape in it. |
| CircDistance.TreeDistance | liblwgeom/lwgeodetic_tree.c:608-631 | The result is the radius times what the search found, or times the distance of two unset points. For trees the search goes through it is the least distance in the units of the radius, or less than 95 percent of the threshold, or zero for a point in a polygon, and without polygon hits it meets the threshold exactly if the least distance does. |
| CircDistance.PointInsideIsFound | liblwgeom/lwgeodetic_tree.c:706-739 | If one shape is a polygon with the first point of the other in it, zero is found, or something below the threshold. |
| CircDistance.PairsAreEdges | liblwgeom/lwgeodetic_tree.c:815-862 | The descent comes only to leaves of the two trees. |
| CircDistance.DrivenToAll | liblwgeom/lwgeodetic_tree.c:815-862 | A descent never sent into a leaf of collection type comes to every pair of leaves. |
| CircDistance.DrivenIsExact | liblwgeom/lwgeodetic_tree.c:608-864 | For such trees the search finds the least distance over all leaf pairs, or one below the threshold, or a point in a polygon. |
| CircDistance.PlainLeavesDrive | liblwgeom/lwgeodetic_tree.c:821-856 | Trees without leaves of collection type are searched completely. |
| CircDistance.NoPolygonNoHit | liblwgeom/lwgeodetic_tree.c:708-739 | Without polygons the short cut for a point in a polygon is never taken. |
| CircDistance.SearchComplete | liblwgeom/lwgeodetic_tree.c:815-862 | The descent comes to as many pairs of leaves as there are exactly if it is never sent into a leaf of collection type. |
| CircDistance.LonePointIsLost | liblwgeom/lwgeodetic_tree.c:821-829 | Between a multipoint that is a single leaf and a line of several edges, any search leaves FLT_MAX although the distance is less. |
| CircIndex.MergedForSearch | liblwgeom/lwgeodetic_tree.c:410-455 | Enclosing leaves without collection types, merged without a larger twin, give a valid tree over exactly their edges that the search goes through completely. |
| CircIndex.IndexIsExact | liblwgeom/lwgeodetic_tree.c:410-864 | Two lists of such leaves, merged and searched, give the least distance between their edges, or one below the threshold, or a point in a polygon. |
| CircIndex.IndexFindsLeast | liblwgeom/lwgeodetic_tree.c:410-864 | Without polygons and threshold it is the least distance a linear scan of all pairs of edges finds. |
| GeomTypes.CollectionsHaveParts | liblwgeom/lwgeom.c:1095-1116 | The types called collections are those that may have parts. |
| GeomTypes.TakesItsMembers | liblwgeom/lwgeom.c:1118-1143 | The homogeneous collection of a type is a collection and may hold it. |
| GeomTypes.PartsByDimension | liblwgeom/lwcollection.c:512-546 | Compound curves are made of curves, multi-curves and curve polygons of those and compound ones, multi-surfaces of both kinds of polygon. |
| Gserialized.LenIsProduct | liblwgeom/gserialized2.c:641-653 | The ordinates take npoints times dimensions times eight bytes. |
| Gserialized.PaddingFills | liblwgeom/gserialized2.c:943-948 | Behind the ring counts come as many zero bytes as it takes to the next multiple of eight. |
| Gserialized.SizeIsExact | liblwgeom/gserialized2.c:641-808 | The predicted size of a geometry is the number of bytes of its layout, at every depth. |
| Gserialized.RoundTrip | liblwgeom/gserialized2.c:1319-1673 | Reading the bytes of any geometry that can be written, with anything behind them, consumes exactly those bytes and gives the geometry as the reader leaves it, or refuses it for a part that is not allowed. |
| Gserialized.ReadBackExactly | liblwgeom/gserialized2.c:1319-1673 | It is the geometry that was written exactly if all parts are allowed and no ellipse or bezier is without points. |
| Gserialized.EmptyEllipseIsUnset | liblwgeom/gserialized2.c:1488-1504 | An ellipse without points is read with its array unset. |
| Gserialized.AlikeAreReadable | liblwgeom/gserialized2.c:1604-1621 | Readable parts of one type make a readable collection of that type. |
| Gserialized.BytesDetermine | liblwgeom/gserialized2.c:839-1185 | No two geometries have one serialization, and none is the beginning of another. |
| Gserialized.OrdinatesAligned | liblwgeom/gserialized2.c:913-965 | Every block of ordinates of a geometry that starts at a multiple of eight lies at a multiple of eight, and the geometry ends at one. |
| Gserialized.BlocksAreAll | liblwgeom/gserialized2.c:839-1185 | These blocks are the ordinates of all point arrays, in order. |
| Gserialized.EmptyUnlessHollow | liblwgeom/gserialized2.c:225-250 | A geometry is empty without a hollow polygon exactly if it has no counts and no ellipse or bezier; an empty one has no ellipse or bezier, and one without counts no hollow polygon. |
| Gserialized.WalkIsRight | liblwgeom/gserialized2.c:225-250 | Over all that can be written, unless a part follows an ellipse without points, the walk reports empty exactly if no leaf has a count. |
| Gserialized.CurvelessInStep | liblwgeom/gserialized2.c:233-243 | Without ellipses and beziers the walk never gets out of step. |
| Gserialized.WalkAgrees | liblwgeom/gserialized2.c:225-258 | There it agrees with the test of the geometry exactly unless the geometry is empty with a hollow polygon, or has no counts and an ellipse or a bezier. |
| Gserialized.HollowIsMissed | liblwgeom/gserialized2.c:247-249 | A polygon with a shell of no points is empty, and the walk says it is not. |
| Gserialized.CurveIsMissed | liblwgeom/gserialized2.c:245-249 | An ellipse and a bezier without points are not empty, and the walk says they are. |
| Gserialized.EllipseHides | liblwgeom/gserialized2.c:233-249 | Behind an ellipse of zeros without points any part is overlooked: the walk reads the ellipse for it and says the collection is empty. |
| GserializedBuffer.SizeAny | liblwgeom/gserialized2.c:773-808 | The accumulating loops compute the predicted size. |
| GserializedBuffer.WriteAny | liblwgeom/gserialized2.c:1143-1185 | The writer puts the bytes of the geometry at its place, touches nothing else and returns their number. |
| GserializedBuffer.WritePoly | liblwgeom/gserialized2.c:913-965 | Counts, padding after an odd number of them, and ordinates are written as laid out. |
| GserializedBuffer.WriteCollection | liblwgeom/gserialized2.c:1110-1141 | Head and parts are written one behind the other. |
| GserializedBuffer.ReadRings | liblwgeom/gserialized2.c:1406-1431 | Two cursors, one over counts and one over ordinates, read what the layout says. |
| GserializedBuffer.ReadAny | liblwgeom/gserialized2.c:1631-1673 | The recursive reader gives the parse of the bytes at its place, errors included. |
| GserializedBuffer.ReadAll | liblwgeom/gserialized2.c:1604-1621 | The loop over parts looks at each type first and advances by what each part consumed. |
| GserializedBuffer.WriteThenRead | liblwgeom/gserialized2.c:1252-1308 | For every geometry that can be written the buffer of the predicted size is filled exactly, and read back to the geometry exactly if it has no ellipse or bezier without points and no part that is not allowed. |
| GserializedHeader.Clamp | liblwgeom/lwutil.c:334-353 | An SRID in range is kept, a negative one becomes 0, and a larger one a number behind the user range. |
| GserializedHeader.LargeClash | liblwgeom/lwutil.c:343-349 | Two SRIDs beyond the range become one number exactly if they differ by a multiple of what there is room for. |
| GserializedHeader.SridRoundTrip | liblwgeom/gserialized2.c:191-222 | Every SRID the clamp lets through survives its three bytes. |
| GserializedHeader.SignedRoundTrip | liblwgeom/gserialized2.c:191-222 | So does every number of 21 bits with its sign. |
| GserializedHeader.FlagsRoundTrip | liblwgeom/gserialized2.c:59-128 | All flags but the read-only one come back, with the version, and extended flags exactly if one beyond the four is set. |
| GserializedHeader.XFlagsAsNumber | liblwgeom/gserialized2.c:67-73 | The extended flags are eight bytes with the lowest bit set for solid, and absent if neither flag is set. |
| GserializedHeader.AssertionHolds | liblwgeom/gserialized2.c:812-1300 | Predicted and written sizes agree exactly if a box has as many bounds as the flags of the geometry say. |
| GserializedHeader.ForeignBoxOverruns | liblwgeom/gserialized2.c:1205-1249 | A box with z on a plane geometry takes eight bytes more than were reserved. |
| GserializedHeader.OwnBoxAgrees | liblwgeom/lwgeom.c:686-696 | A box with the flags of its geometry has as many bounds, and the same. |
| GserializedHeader.BodyIsAligned | liblwgeom/gserialized2.c:1252-1291 | With or without extended flags and box, which take eight bytes and eight to a pair of bounds, the body starts at a multiple of eight. |
| GserializedHeader.WholeRoundTrip | liblwgeom/gserialized2.c:1675-1708 | Reading a whole serialized geometry finds flags, SRID and body behind header and box, the body as the reader leaves it, or nothing for parts that are not allowed. |
| GserializedHeader.BoxRoundTrip | liblwgeom/gserialized2.c:318-356 | The bounds of the box are read back in their places if box and geometry agree on the dimensions. |
| GserializedHeader.FromLwgeom | liblwgeom/gserialized2.c:1252-1308 | The buffer is allocated in the predicted size, which it holds four times, and filled exactly; SRID, flags, box and body are read back from it, an SRID in range unchanged, and every point array lies at a multiple of eight. |
| GridCells.TruncIsBlock | geogridcoder/geomgrid_ops.cpp:420-421 | Masking a code gives the start of the block of 4^(32 - level) codes it lies in. |
| GridCells.CutIsAligned | geogridcoder/geomgrid_ops.cpp:420-421 | The masked code names an aligned cell with the code in it. |
| GridCells.WithinIsSubset | geogridcoder/geomgrid_ops.cpp:506-521 | One cell lies within another exactly if all its codes do. |
| GridCells.MeetIsSharedCode | geogridcoder/geomgrid_ops.cpp:417-424 | Two cells have a code in common exactly if one is within the other. |
| GridCells.MeetByMask | geogridcoder/geomgrid_ops.cpp:417-424 | Comparing codes masked to the coarser level finds that out. |
| GridCells.BehindForGood | geogridcoder/geomgrid_ops.cpp:422-427 | A cell whose masked code is smaller meets no later cell of a sorted array. |
| GridSets.Overlap | geogridcoder/geomgrid_ops.cpp:360-373 | On sorted arrays the merge finds a common code exactly if there is one. |
| GridSets.SharedCode | geogridcoder/geomgrid_ops.cpp:365-372 | Cells with one code meet, and for cells of one level the converse holds. |
| GridSets.SpanOverlap | geogridcoder/geomgrid_ops.cpp:411-430 | On sorted arrays of mixed levels the merge finds cells that meet exactly if there are any. |
| GridSets.GridArraySpanOverlap | geogridcoder/geomgrid_ops.cpp:725-764 | On any arrays the operator tells exactly whether some code lies in a cell of both. |
| GridSets.GridContains | geogridcoder/geomgrid_ops.cpp:499-551 | The merge answers as its step function; yes is always right, and no is right unless the array has a cell inside an earlier outermost one. |
| GridSets.MatchedIsCovered | geogridcoder/geomgrid_ops.cpp:499-551 | From any state, if every cell left is counted then each lies inside a cell left of the other array. |
| GridSets.CoveredIsMatched | geogridcoder/geomgrid_ops.cpp:499-551 | From any state, if every cell left is covered then every one is counted. |
| GridSets.ContainsIsRight | geogridcoder/geomgrid_ops.cpp:483-573 | The answer is right for every other array exactly if no cell lies inside an outermost cell that comes before it. |
| GridSets.DistinctCodes | geogridcoder/geomgrid_ops.cpp:785-804 | For arrays without equal codes, as the operator passes on, that is pairwise disjointness. |
| GridSets.NestedIsMissed | geogridcoder/geomgrid_ops.cpp:534-545 | A cell and a part of it are inside the cell, and the merge denies it. |
| GridCodec.SpreadStep | geogridcoder/geosot.cpp:192-197 | A shift, an or and a mask halve the groups of bits, each bit of the coordinate staying where the groups say. |
| GridCodec.SplitIsSpread | geogridcoder/geosot.cpp:189-199 | The six masks move bit k to bit 2k and leave zeros between. |
| GridCodec.GatherStep | geogridcoder/geosot.cpp:215-219 | A shift, an exclusive or and a mask double the groups of bits. |
| GridCodec.MergeIsGather | geogridcoder/geosot.cpp:212-221 | The six masks gather every other bit of a code. |
| GridCodec.MagicIsInterleave | geogridcoder/geosot.cpp:166-169 | Bit k of the one coordinate is bit 2k of the code, and of the other bit 2k + 1. |
| GridCodec.UnMagicIsApart | geogridcoder/geosot.cpp:176-180 | Bit k of the two coordinates taken out of a code are its bits 2k and 2k + 1. |
| GridCodec.MagicThere | geogridcoder/geosot.cpp:166-221 | Taking an interleaved code apart gives both coordinates. |
| GridCodec.MagicBack | geogridcoder/geosot.cpp:166-221 | Interleaving the coordinates of any code gives the code. |
| GridCodec.ToString | geogridcoder/geosot.cpp:117-135 | The loop prints the first digits of the code with their separators. |
| GridCodec.ToCode | geogridcoder/geosot.cpp:137-153 | The loop counts the digits and puts each at its place. |
| GridCodec.CodeIsRead | geogridcoder/geosot.cpp:137-164 | The j-th decimal digit of any text sets the j-th pair of bits from above, by its value up to three and not at all beyond. |
| GridCodec.OneDigitMore | geogridcoder/geosot.cpp:143-149 | Or-ing a digit of a code in after its first ones gives the code as far as that digit. |
| GridCodec.TextThere | geogridcoder/geosot.cpp:117-153 | Reading what was printed gives the level and the code with all later digits cleared. |
| GridCodec.TopOfMagic | geogridcoder/geosot.cpp:166-221 | Clearing the digits of a code beyond a level clears the low 32 - level bits of both coordinates. |
| GridCodec.ReadBack | geogridcoder/geosot.cpp:117-221 | Interleaved, printed, read and taken apart, both coordinates come back with their low 32 - level bits cleared. |
| GridCodec.PrintAndRead | geogridcoder/geosot.cpp:117-221 | The same of the printing loop and the reading loop together. |
| Geohash.InOwnCell | liblwgeom/lwalgorithm.c:608-634 | The box the encoder narrows down always has the point in it. |
| Geohash.OnlyOwnCell | liblwgeom/lwalgorithm.c:608-634 | No other bits have a cell with the point in it, so the cells of one length partition the world. |
| Geohash.IsBase32 | liblwgeom/lwalgorithm.c:585 | The character of a number is the one in the table. |
| Geohash.DigitOf | liblwgeom/lwalgorithm.c:735-741 | Searching the table for the character of a number gives the number. |
| Geohash.EitherCase | liblwgeom/lwalgorithm.c:733-735 | A letter in upper case is read as the one of the table. |
| Geohash.DigitsOfValue | liblwgeom/lwalgorithm.c:600-645 | Five bits added up by weight and taken apart by mask are the same five bits. |
| Geohash.UnwordOfWord | liblwgeom/lwalgorithm.c:636-758 | Characters written are valid and read back to their bits. |
| Geohash.WordOfUnword | liblwgeom/lwalgorithm.c:731-758 | Characters read and written again are the same in lower case. |
| Geohash.ShorterIsPrefix | liblwgeom/lwalgorithm.c:608-648 | Shorter hashes are prefixes of longer ones. |
| Geohash.HashIsCell | liblwgeom/lwalgorithm.c:593-759 | A point has a given point's hash exactly if it lies in the decoded cell, open above. |
| Geohash.DecodeThenEncode | liblwgeom/lwalgorithm.c:716-759 | Whatever digits are decoded, every point of the cell has them for a hash. |
| GeohashLoops.GeohashPoint | liblwgeom/lwalgorithm.c:593-651 | The bisecting loop fills the buffer with the hash. |
| GeohashLoops.DecodeBbox | liblwgeom/lwalgorithm.c:716-759 | A negative precision, or one too large, decodes all characters and any other that many: the world is narrowed to their cell, up to the first that is no digit, which is reported. |
| GeohashLoops.EncodeThenDecode | liblwgeom/lwalgorithm.c:593-759 | Written to any length and read in full, a hash gives the cell of its point, with the point in it. |
| GeohashLoops.GeohashPrecision | liblwgeom/lwalgorithm.c:761-848 | For every box in the world that is no point the loop ends, at the first middle that crosses the box; its bounds contain the box and are the common cell of all its points. |
| GeohashLoops.OneHash | liblwgeom/lwalgorithm.c:845-847 | At the precision returned all points of the box have one hash. |
| GeohashLoops.OneMoreIsShared | liblwgeom/lwalgorithm.c:795-842 | The points of the box share one bit more exactly if its lower edge is on the middle where the loop stopped. |
| GeohashLoops.NoLongerHash | liblwgeom/lwalgorithm.c:795-847 | Where it is not, no longer hash is right for the whole box. |
| GeohashLoops.SplitExists | liblwgeom/lwalgorithm.c:786-843 | Some middle parts every box that is no point. |
| GeohashLoops.SharedExactly | liblwgeom/lwalgorithm.c:786-843 | The points of the box share k bits exactly if none of the first k middles parts it. |
| GeohashLoops.RightExactly | liblwgeom/lwalgorithm.c:845-847 | They share a hash of n characters exactly if the bit that parts the box comes after 5n. |
| GeohashLoops.PrecisionIsBest | liblwgeom/lwalgorithm.c:786-847 | The precision returned is right, and the longest right one exactly if no whole character lies between the bit where the loop stopped and the bit that parts the box. |
| GeohashLoops.OnMiddleYetBest | liblwgeom/lwalgorithm.c:795-842 | A box on the meridian across the equator is stopped at its edge, and no hash is right for all of it. |
| GeohashLoops.MeridianIsLost | liblwgeom/lwalgorithm.c:795-802 | A box with an edge on the prime meridian gets no character although all its points share one. |
| GeohashLoops.LwgeomGeohash | liblwgeom/lwalgorithm.c:858-896 | Without a precision, every point of the geometry's box has the hash returned; boxes outside the world are refused. |
| Thinning.NearIsWithin | liblwgeom/lwgeom.c:1678-1683 | In whatever direction, a step of length d ends within the circle exactly if d is at most the tolerance. |
| Thinning.StripIsWider | liblwgeom/lwgeom.c:1671-1676 | A point outside the strip is outside the tolerance circle. |
| Thinning.KeptAreFar | liblwgeom/lwgeom.c:1654-1683 | The points kept by the naive thinning are pairwise farther apart than the tolerance. |
| Thinning.KeptCover | liblwgeom/lwgeom.c:1678-1683 | Every removed point is within the tolerance of a kept one. |
| Thinning.FarInAnyOrder | liblwgeom/lwgeom.c:1650-1653 | Sorting again keeps points pairwise far. |
| Thinning.StrikeUpcoming | liblwgeom/lwgeom.c:1661-1684 | In place, the inner loop removes every upcoming point near the current one, and leaving at the strip loses none. |
| Thinning.Strike | liblwgeom/lwgeom.c:1654-1685 | A sweep in place removes exactly the points the naive thinning removes. |
| Thinning.Compact | liblwgeom/lwgeom.c:1687-1692 | What is left moves to the front in order. |
| Thinning.SecondSweep | liblwgeom/lwgeom.c:1650-1693 | The second sweep removes nothing. |
| Thinning.TwoSweeps | liblwgeom/lwgeom.c:1646-1696 | Whatever the two sorts leave, two naive thinnings together leave pairwise far points that cover all, and fewer points exactly if one of them removed some. |
| Thinning.MultiPoint.RemoveRepeatedPoints | liblwgeom/lwgeom.c:1646-1696 | What is left is what the naive thinning keeps of the points in order of y, in order of x: points that were there, pairwise far, covering all that were removed; modified is reported exactly if fewer are left. |
| Boundary.BoundaryOfOne | liblwgeom/lwgeom.c:2592-2607 | A curve alone has its ends for a boundary exactly if they differ in the plane, or in space if it has Z. |
| Boundary.OddDegree | liblwgeom/lwgeom.c:2615-2639 | Toggling once for each member with the point at an end tells whether their number is odd. |
| Boundary.Toggle | liblwgeom/lwgeom.c:2621-2637 | An end that is there is removed, with the last one in its place, and one that is not is added; the others stay, each once. |
| Boundary.ToggleEnds | liblwgeom/lwgeom.c:2621-2638 | Both ends of an open member are toggled, within the buffer. |
| Boundary.BoundaryOfCurves | liblwgeom/lwgeom.c:2609-2649 | A point is in the boundary exactly if an odd number of open members have it at an end, and then once; the buffer of twice as many points as members is never overrun. |
| Lookup3.Wraps | liblwgeom/lookup3.c:129-137 | Sums and differences of words are taken modulo 2^32. |
| Lookup3.RotIsRotation | liblwgeom/lookup3.c:74 | A rotation makes the high k bits of a word the low ones, and moves the others up. |
| Lookup3.XorOfWords | liblwgeom/lookup3.c:129-137 | A bit is set in an exclusive or exactly if it differs in the two words. |
| Lookup3.MixLines | liblwgeom/lookup3.c:129-137 | The six lines of the mixer, one after the other, give the mixed state. |
| Lookup3.FinalLines | liblwgeom/lookup3.c:164-173 | The seven lines of the final mixer give its state. |
| Lookup3.XorTwice | liblwgeom/lookup3.c:129-137 | Exclusive or undoes itself. |
| Lookup3.StirredIsReversible | liblwgeom/lookup3.c:129-137 | Any number of lines of the mixer can be undone, from both sides. |
| Lookup3.BlendedIsReversible | liblwgeom/lookup3.c:164-173 | So can any number of lines of the final mixer. |
| Lookup3.MixersAreBijections | liblwgeom/lookup3.c:74-173 | Both mixers are one to one and onto on triples of words. |
| Lookup3.Mix | liblwgeom/lookup3.c:129-137 | The six lines with their shifts compute the mixing. |
| Lookup3.Final | liblwgeom/lookup3.c:164-173 | The seven lines with their shifts compute the final mixing. |
| HashLittle.StartIsSum | liblwgeom/lookup3.c:488-490 | The state starts from 0xdeadbeef, the length and the seeds, modulo 2^32. |
| HashLittle.ShortKey | liblwgeom/lookup3.c:523-545 | A key of up to twelve bytes is one block, filled with zeros and mixed once. |
| HashLittle.NumberInKey | liblwgeom/lookup3.c:517-543 | What is read of a word at the end of the key is the word with zeros for what follows. |
| HashLittle.LowOfNumber | liblwgeom/lookup3.c:527-541 | Masking a word read past the end of the key leaves the bytes of the key. |
| HashLittle.AddWord | liblwgeom/lookup3.c:504-625 | A word of a whole block is added as the same number however it is read. |
| HashLittle.AddLast | liblwgeom/lookup3.c:525-646 | What there is of a word of the last block is added as the same number however it is read. |
| HashLittle.HashLittle2 | liblwgeom/lookup3.c:479-651 | For every alignment and byte order the pair returned is that of the bytes of the key, whatever comes after it in memory. |
| HashLittle.SeedsStayApart | liblwgeom/lookup3.c:488-651 | Different seeds lead every key to different final states. |
| HashLittle.OneBlockTells | liblwgeom/lookup3.c:74-78 | Keys of one length that differ in one block of twelve bytes end in different states. |

## Left out

- Rounding, NaN and negative zero: doubles are reals, and coordinates are compared as values where the code compares bytes.
- The formulas for triangle areas in two and three dimensions: areas are any numbers from 0 to FLT_MAX, and an area above FLT_MAX is not part of the model.
- Lines of fewer than three points, and the callers of `ptarray_set_effective_area` for polygons and collections.
- The trigonometry behind the sphere, `circ_center_cartesian`, the radius padded by 1.1, and the spheroid distance at the end of a search.
- CircMerge.MergeEncloses: asks that no pass merges a node into a smaller one about the same centre, because the enclosure can fail then, as CircMerge.TwinsEnclosed says for two nodes.
- CircDistance.TreeDistance: that a point is in a polygon is the parity of the crossings with the line to the point outside; that this point is outside, and that a pair of nodes with a hit below it is not pruned, are not stated in general.
- CircStab.PathParity: speaks of paths whose edges the stab line reaches; that a ring crosses the rest of the great circle an even number of times is geometry of the sphere.
- The order of children left behind by one search and met by the next: the contracts hold for every order.
- `circ_tree_new` and the sort before merging: the nodes to merge come in any order.
- Gserialized.WalkIsRight: what the walk says once it is out of step depends on the bytes of an ellipse's shape, and is stated for a shape of zeros only.
- Reading past the end of a buffer: the readers report the buffer as truncated there, where the code reads on.
- The float rounding of box bounds; `gserialized2_set_gbox`, `gserialized2_drop_gbox` and the peeking functions.
- Collections of 2^31 parts and more, whose count the walk for emptiness takes for negative.
- Version 1 of the serialization.
- The branches for cells of three dimensions, `array_grid2d_unique` on arrays with equal codes at different levels, and level 0, where the shift is undefined.
- GridCodec.ToCode: asks for at most 32 digits, because the shift is undefined beyond.
- `Dec2code`, altitudes, and the 96-bit codes of three dimensions.
- `geohash_point_as_int`, and calculating the box of a geometry, which is a parameter.
- Thinning.MultiPoint.RemoveRepeatedPoints: members without a point are excluded, because the code does not expect them; lines, polygons and collections are not modelled.
- Boundary.BoundaryOfCurves: a member of another type, a compound curve say, has no boundary here; the error the code reports for it is not modelled.
- The boundaries of other types, which need homogenizing.
- The big-endian variants of lookup3, and how evenly the hash spreads.
- GDAL, GEOS, PROJ and PostgreSQL, memory management, interrupts and logging.
