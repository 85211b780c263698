# GraphMorph: the integer core of the non-intersecting morph

GraphMorph is a Java applet. The user draws two planar graphs with the same
number of nodes and then morphs one into the other. The "non-intersecting" morph
(`GraphMorphNonIntersect`) keeps every frame of the animation planar. To do this
it works on fixed-size integer tables, one set per drawing `g`:

- coordinate tables `nodeX[g]`, `nodeY[g]` (200 nodes);
- edge tables `links[g]` (800 links) with live counts `currentLinkCount[g]`;
- the extra-node table `extraNodes` (100 rows);
- the indices `borderNodes` of the frame corners.

This project models the parts of that class that edit these tables, together
with the animation frame handling:

- **Geometry.** `edgeCross` scans an edge table for links that the input segment crosses.
- **LinkLists.** The duplicate test of `removeRepeated`, what that method leaves of an edge table, and `isAdjacent`.
- **Buffers.** The shift-left loop that deletes one entry of a buffer, and the "write a block at an offset" view (`Splice`) of the table writes.
- **ExtraNodes.** `isInExtra`, the endpoint renumbering and the coordinate compaction of `correctEdges`.
- **Faces.** The neighbour lists `preFindAllPoly` builds, and its test that skips the face walk which is just the outer frame ring.
- **Triangulation.** `triangulate` (ear clipping, then a recursive split) and `getLeftMostVertexIndex`.
- **Motion.** `linearMotion`'s per-node interpolation in Java `int` arithmetic, the phase dispatch of `rigidMotion`, and `tick`'s choice of motion.
- **Frames.** The frame controller: `tick`, `captureFrame`, `animate`, `stopAnimate`, the start/finish/pause buttons, the total-frames scrollbar, `changeMode`, and one round of the `Animation` thread.
- **Sorting.** `sort(array, n)`: an exchange sort that replaces the keys by their original positions in sorted order.
- **Graphs.** Array-level loops: the passes of `removeRepeated`, the rewrite and compaction loops of `correctEdges`, and the frame construction and corner rotation of `addBoundary`.
- **Store.** A `GraphStore` class holding all the tables, with `reset`, `removeRepeated`, `correctEdges` and `addBoundary` as methods that rewrite them in place.

### Arithmetic and layout

Java `int` division truncates toward zero. It is modelled by `Motion.TruncDiv`.
The Euclidean `/` of Dafny is used only for non-negative operands.

Coordinates are unbounded integers, so Java's 32-bit overflow is not modelled.

The applet stores each link as a two-element `int[]`. Here it is a `Link(a, b)` record.

### Behaviour of the code as written

The model keeps the following behaviours of the code, and states them:

- **`edgeCross`** (lines 1093-1096) computes `u` as a dot product with the stored edge's direction, not as the second cross product. The scan therefore misses a proper crossing (`Geometry.CrossingNotReported`) and reports some disjoint segments (`Geometry.DisjointReported`). Whether an edge is reported also depends on the orientation of the input edge (`Geometry.ReversedInputNeverBothHit`).
- **The duplicate test of `removeRepeated`** is not symmetric. A self-loop `(a, a)` deletes every later link that touches `a`, so an adjacency is lost (`LinkLists.SelfLoopLosesAdjacency`). On loop-free tables adjacency is kept (`LinkLists.DedupKeepsAdjacency`).
- **`correctEdges`** rewrites only the first `currentLinkCount[0]` links, in both edge tables. It compacts all four coordinate tables up to `curNode[0]`.
- **`addBoundary`** uses drawing 0's node count `n` in several places for drawing 1: for drawing 1's box scan, for its ring links and for the corner slots it rotates. Drawing 1's corners themselves are appended at `curNode[1]`.
  - The box scan always includes entry 0, even when there are no nodes.
  - When no bridge is found (`i2 == -1`), the rotation and the bridge links are skipped. The frames and ring links are still added.
- **`curFrame`** has no range invariant. `stopAnimate` steps it back by `dir`, so after a clamp in `tick` it rests one frame outside the rendered frame.
- **`linearMotion`** evaluates `a + (b - a) * f / T` left to right in `int` arithmetic. The truncation is toward zero, so a decreasing coordinate rounds up (`Motion.TruncationExample`).

In these places the model follows the code as written: the `edgeCross` parameter `u`, the node-count bounds that `correctEdges` and `addBoundary` use, and the duplicate test.

## Model

| member | source | states |
|---|---|---|
| Geometry.EdgeCross | src/main/java/micycle/graphmorph/GraphMorphNonIntersect.java:1073-1102 | `edgeCross` answers true exactly when some scanned link is hit: nonzero signed area, and `0 < u < area` and `0 < v < area` |
| Geometry.NonPositiveAreaNeverHits | src/main/java/micycle/graphmorph/GraphMorphNonIntersect.java:1089-1096 | a stored edge whose parallelogram with the input edge has zero or negative signed area is never reported |
| Geometry.ReversedInputNeverBothHit | src/main/java/micycle/graphmorph/GraphMorphNonIntersect.java:1083-1096 | an input edge and its reverse are never both reported against the same stored edge, so the answer depends on orientation |
| Geometry.CrossingNotReported | src/main/java/micycle/graphmorph/GraphMorphNonIntersect.java:1093-1096 | the diagonals (0,0)-(2,2) and (0,2)-(2,0) cross, yet neither orientation of the stored link is reported |
| Geometry.DisjointReported | src/main/java/micycle/graphmorph/GraphMorphNonIntersect.java:1093-1096 | the disjoint segments (0,0)-(0,10) and (-5,-5)-(-15,15) are reported as crossing |
| LinkLists.Filter | src/main/java/micycle/graphmorph/GraphMorphNonIntersect.java:1290-1302 | the inner pass of `removeRepeated` keeps exactly the later links the current link does not match. It never grows the table and keeps their order |
| LinkLists.Dedup | src/main/java/micycle/graphmorph/GraphMorphNonIntersect.java:1288-1319 | what `removeRepeated` leaves of a table is no longer than the table, and every survivor comes from it |
| LinkLists.DedupSubseq | src/main/java/micycle/graphmorph/GraphMorphNonIntersect.java:1288-1319 | the survivors keep their original relative order |
| LinkLists.DedupNoRepeats | src/main/java/micycle/graphmorph/GraphMorphNonIntersect.java:1288-1319 | after `removeRepeated` no survivor is matched by an earlier survivor |
| LinkLists.DedupCovers | src/main/java/micycle/graphmorph/GraphMorphNonIntersect.java:1291-1301 | a link is deleted only if a surviving link matches it |
| LinkLists.DedupAppend | src/main/java/micycle/graphmorph/GraphMorphNonIntersect.java:1289-1303 | a link survives `removeRepeated` exactly when no earlier survivor matches it: extending the table by `x` extends the survivors by `x` if none of them matches it and by nothing otherwise, so the first link of each matching group is the one kept |
| LinkLists.DedupOfNoRepeats | src/main/java/micycle/graphmorph/GraphMorphNonIntersect.java:1288-1319 | a table without repeats is left unchanged |
| LinkLists.DedupIdempotent | src/main/java/micycle/graphmorph/GraphMorphNonIntersect.java:1288-1319 | running `removeRepeated` a second time changes nothing |
| LinkLists.DedupKeepsAdjacency | src/main/java/micycle/graphmorph/GraphMorphNonIntersect.java:1288-1319 | on a table without self-loops, two nodes are adjacent after `removeRepeated` exactly when they were before |
| LinkLists.SelfLoopLosesAdjacency | src/main/java/micycle/graphmorph/GraphMorphNonIntersect.java:1291-1292 | with a self-loop (0,0) ahead of (0,1), the asymmetric test deletes (0,1) and nodes 0 and 1 stop being adjacent |
| LinkLists.IsAdjacent | src/main/java/micycle/graphmorph/GraphMorphNonIntersect.java:2111-2119 | `isAdjacent` is true exactly when some link joins the two nodes, in either direction |
| LinkLists.IsAdjacentSymmetric | src/main/java/micycle/graphmorph/GraphMorphNonIntersect.java:2113-2114 | swapping the two nodes does not change the answer |
| Buffers.ShiftedOut | src/main/java/micycle/graphmorph/GraphMorphNonIntersect.java:2296-2299 | deleting position `l` of the first `m` entries: the live prefix becomes the old one without that entry, and the entry at `m-1` stays behind the new end |
| Buffers.ShiftOut | src/main/java/micycle/graphmorph/GraphMorphNonIntersect.java:2297-2299 | the shift loop leaves the buffer exactly as `ShiftedOut` describes |
| ExtraNodes.IsInExtra | src/main/java/micycle/graphmorph/GraphMorphNonIntersect.java:1529-1536 | `isInExtra` gives -1 when no row records the copy `n`, and otherwise the original of the first row that records it |
| ExtraNodes.Compacted | src/main/java/micycle/graphmorph/GraphMorphNonIntersect.java:1512-1517 | after compaction, entries `correctNc .. n-k-1` hold the value `k` places further on and all other entries are unchanged |
| ExtraNodes.RemapKeepsCoordinate | src/main/java/micycle/graphmorph/GraphMorphNonIntersect.java:1466-1527 | if the copies sit where the face walk puts them, every node below the old count is renumbered into the shortened table at an index holding its old coordinate |
| ExtraNodes.RemapInjectiveOnOriginals | src/main/java/micycle/graphmorph/GraphMorphNonIntersect.java:1470-1511 | the renumbering never merges two distinct nodes that are not copies |
| Faces.NeighbourLists | src/main/java/micycle/graphmorph/GraphMorphNonIntersect.java:1104-1117 | the neighbour matrix has one row per node, and row `i` lists the other endpoint of each link at `i`, in link order |
| Faces.NeighboursAreAdjacent | src/main/java/micycle/graphmorph/GraphMorphNonIntersect.java:1107-1117 | `v` is in row `u` exactly when some link joins `u` and `v` |
| Faces.NeighboursSymmetric | src/main/java/micycle/graphmorph/GraphMorphNonIntersect.java:1107-1117 | `v` is in row `u` exactly when `u` is in row `v` |
| Faces.FirstIndexOf | src/main/java/micycle/graphmorph/GraphMorphNonIntersect.java:1178-1179 | the first position of `x` in the face, or the face length when `x` does not occur |
| Faces.FirstOccurrence | src/main/java/micycle/graphmorph/GraphMorphNonIntersect.java:1177-1179 | the first search loop finds the first position of `borderNodes[0]` |
| Faces.ReadsForward | src/main/java/micycle/graphmorph/GraphMorphNonIntersect.java:1180-1185 | the forward loop reaches `nc` exactly when the face, read forwards cyclically from that position, spells the border |
| Faces.ReadsBackward | src/main/java/micycle/graphmorph/GraphMorphNonIntersect.java:1186-1191 | the backward loop reaches `nc` exactly when the face, read backwards cyclically, spells the border |
| Faces.IsBoundaryFace | src/main/java/micycle/graphmorph/GraphMorphNonIntersect.java:1175-1192 | a face walk is skipped exactly when it has `bc` nodes and spells the border ring forwards or backwards from its first meeting with `borderNodes[0]` |
| Faces.SkippedIffRotation | src/main/java/micycle/graphmorph/GraphMorphNonIntersect.java:1175-1192 | for a face without repeated nodes, the skip test holds exactly when the face is a rotation or reflection of the border ring |
| Triangulation.LeftMostScan | src/main/java/micycle/graphmorph/GraphMorphNonIntersect.java:2409-2415 | the scan returns a position inside a non-empty vertex list, and 0 for an empty one |
| Triangulation.LeftMostScanIsFirstMinimum | src/main/java/micycle/graphmorph/GraphMorphNonIntersect.java:2409-2415 | from any point of the scan, the result is the first position of the smallest x |
| Triangulation.LeftMostVertexIndex | src/main/java/micycle/graphmorph/GraphMorphNonIntersect.java:2406-2417 | `getLeftMostVertexIndex` returns 0 for an empty list and otherwise a valid position |
| Triangulation.LeftMostIsFirstMinimum | src/main/java/micycle/graphmorph/GraphMorphNonIntersect.java:2406-2417 | no vertex has a smaller x than the returned one, and every vertex before it has a strictly larger x |
| Triangulation.Ears | src/main/java/micycle/graphmorph/GraphMorphNonIntersect.java:2287-2303 | the ear loop emits one link per clipped vertex, and links plus remaining diagonals add up to `max(0, n-3)`. When it stops with more than three vertices, the oracle found a vertex inside the leftmost ear |
| Triangulation.Diagonals | src/main/java/micycle/graphmorph/GraphMorphNonIntersect.java:2282-2324 | `triangulate` of an `n`-gon appends exactly `max(0, n-3)` links |
| Triangulation.Split | src/main/java/micycle/graphmorph/GraphMorphNonIntersect.java:2307-2322 | the split step also appends exactly `max(0, n-3)` links: the diagonal, then both arcs |
| Triangulation.EarsUnfold | src/main/java/micycle/graphmorph/GraphMorphNonIntersect.java:2288-2302 | one clip emits `(next, prev)` around the leftmost vertex, then continues on the list with that vertex shifted out |
| Triangulation.DiagonalEndpoints | src/main/java/micycle/graphmorph/GraphMorphNonIntersect.java:2282-2324 | every appended link joins two vertices of the input polygon |
| Triangulation.DiagonalsProper | src/main/java/micycle/graphmorph/GraphMorphNonIntersect.java:2282-2324 | on a polygon without repeated vertices, no appended link is a self-loop |
| Triangulation.EarsDistinct | src/main/java/micycle/graphmorph/GraphMorphNonIntersect.java:2296-2299 | clipping keeps the live vertex list free of repeats |
| Triangulation.EarsMembers | src/main/java/micycle/graphmorph/GraphMorphNonIntersect.java:2287-2303 | the remaining live vertices and both ends of every ear link come from the polygon |
| Triangulation.EarsProper | src/main/java/micycle/graphmorph/GraphMorphNonIntersect.java:2300-2301 | on distinct vertices no ear link is a self-loop |
| Triangulation.SplitEndpoints | src/main/java/micycle/graphmorph/GraphMorphNonIntersect.java:2307-2322 | the links of the split step join polygon vertices |
| Triangulation.SplitProper | src/main/java/micycle/graphmorph/GraphMorphNonIntersect.java:2307-2322 | on distinct vertices the split step appends no self-loop |
| Triangulation.CopyInnerArc | src/main/java/micycle/graphmorph/GraphMorphNonIntersect.java:2314-2316 | the new array starts with the arc from the lower to the higher of the leftmost and inside positions |
| Triangulation.CopyOuterArc | src/main/java/micycle/graphmorph/GraphMorphNonIntersect.java:2319-2321 | the new array starts with the arc from the higher position round to the lower one |
| Triangulation.ClipEar | src/main/java/micycle/graphmorph/GraphMorphNonIntersect.java:2289-2302 | one clip appends the ear link and shifts the leftmost vertex out, keeping the loop invariant tied to `Ears` |
| Triangulation.ClipNext | src/main/java/micycle/graphmorph/GraphMorphNonIntersect.java:2288-2302 | one round reports the leftmost position and the oracle's answer. It changes nothing when the answer is not -1, and clips otherwise |
| Triangulation.ClipEars | src/main/java/micycle/graphmorph/GraphMorphNonIntersect.java:2287-2303 | the loop leaves the link table and the vertex array exactly as `Ears` says, with the counts adding up |
| Triangulation.Triangulate | src/main/java/micycle/graphmorph/GraphMorphNonIntersect.java:2282-2324 | returns `numberOfTriangles + max(0, n-3)`. It writes `Diagonals` of the input polygon into the link table from `numberOfTriangles` on, and leaves the vertex array as the ear loop shifted it |
| Triangulation.SplitAndRecurse | src/main/java/micycle/graphmorph/GraphMorphNonIntersect.java:2307-2323 | the split step writes the diagonal and the links of both arcs, as `Split` says, and returns the new count |
| Triangulation.TriangulateInnerArc | src/main/java/micycle/graphmorph/GraphMorphNonIntersect.java:2312-2317 | copying and triangulating the inner arc appends `Diagonals` of that arc |
| Triangulation.TriangulateOuterArc | src/main/java/micycle/graphmorph/GraphMorphNonIntersect.java:2318-2322 | copying and triangulating the outer arc appends `Diagonals` of that arc |
| Triangulation.SplitArcs | src/main/java/micycle/graphmorph/GraphMorphNonIntersect.java:2310-2322 | both arcs are strictly smaller than the polygon and both share the diagonal's ends, so the recursion terminates. The link counts add up to `max(0, n-3)` |
| Triangulation.SplitParts | src/main/java/micycle/graphmorph/GraphMorphNonIntersect.java:2307-2322 | the split step's links are the diagonal, then the inner arc's, then the outer arc's |
| Motion.TruncDiv | src/main/java/micycle/graphmorph/GraphMorphNonIntersect.java:1822-1823 | Java's `/`: the quotient's magnitude is the floor of `|x| / d`, and its sign follows `x` |
| Motion.InterpEndpoints | src/main/java/micycle/graphmorph/GraphMorphNonIntersect.java:1822-1823 | frame 0 gives the initial coordinate and frame `T` the final one |
| Motion.InterpBetween | src/main/java/micycle/graphmorph/GraphMorphNonIntersect.java:1822-1823 | for `0 <= f <= T` the coordinate lies between its initial and final values |
| Motion.InterpMonotone | src/main/java/micycle/graphmorph/GraphMorphNonIntersect.java:1822-1823 | as the frame advances, each coordinate moves monotonically toward its final value |
| Motion.TruncationExample | src/main/java/micycle/graphmorph/GraphMorphNonIntersect.java:1822 | going from 10 to 5, frame 1 of 2 is at 8 (truncation), not 7 (floor) |
| Motion.ColourStaysValid | src/main/java/micycle/graphmorph/GraphMorphNonIntersect.java:1820-1821 | between the end frames every component of the interpolated colour lies in `[0, 255]`, so `new Color` cannot fail |
| Motion.ColourEndpoints | src/main/java/micycle/graphmorph/GraphMorphNonIntersect.java:1815-1821 | frame 0 shows a node's initial colour and frame `T` its final colour |
| Motion.InterpolatedEnds | src/main/java/micycle/graphmorph/GraphMorphNonIntersect.java:1810-1824 | at frames 0 and `T`, the interpolated nodes are exactly those of the initial and final drawings |
| Motion.LinearMotion | src/main/java/micycle/graphmorph/GraphMorphNonIntersect.java:1805-1826 | node `i` at frame `f` is at `a + (b-a)*f/T` per coordinate and colour component. Frame 0 reproduces the initial drawing and frame `T` the final one |
| Motion.RenderInPhase | src/main/java/micycle/graphmorph/GraphMorphNonIntersect.java:1828-1838 | for a frame in `[0, T]`, every motion routine gets a frame within its own positive range, and the two rigid phases meet without a gap |
| Frames.Clamp | src/main/java/micycle/graphmorph/GraphMorphNonIntersect.java:1627-1635 | the frame `tick` renders is always in `[0, T]`, and is the stored frame when that was already in range |
| Frames.FrameControl.constructor | src/main/java/micycle/graphmorph/GraphMorphNonIntersect.java:265-277 | the applet starts at frame 0 (line 175), not animating, in edit mode, with 100 total frames (line 265) and the motion chooser on its fourth entry, "final" (line 277) |
| Frames.FrameControl.StopAnimate | src/main/java/micycle/graphmorph/GraphMorphNonIntersect.java:1615-1621 | stops animating and steps the frame back by `dir`, changing nothing else |
| Frames.FrameControl.Animate | src/main/java/micycle/graphmorph/GraphMorphNonIntersect.java:1603-1613 | sets the direction to +1 or -1 and starts animating |
| Frames.FrameControl.Tick | src/main/java/micycle/graphmorph/GraphMorphNonIntersect.java:1626-1664 | renders the clamped frame with the selected motion. If clamping was needed it stops, with the frame one `dir` step past the clamp |
| Frames.FrameControl.CaptureFrame | src/main/java/micycle/graphmorph/GraphMorphNonIntersect.java:1666-1669 | moving the frame slider renders the clamped slider value, as `tick` does |
| Frames.FrameControl.Start | src/main/java/micycle/graphmorph/GraphMorphNonIntersect.java:854-857 | the start button rewinds to frame 0 and changes nothing else |
| Frames.FrameControl.Finish | src/main/java/micycle/graphmorph/GraphMorphNonIntersect.java:858-861 | the finish button jumps to the last frame |
| Frames.FrameControl.Pause | src/main/java/micycle/graphmorph/GraphMorphNonIntersect.java:862-863 | the pause button toggles animating and nothing else |
| Frames.FrameControl.SetTotalFrames | src/main/java/micycle/graphmorph/GraphMorphNonIntersect.java:689-695 | a new total pulls a stored frame beyond it back to it |
| Frames.FrameControl.ChangeMode | src/main/java/micycle/graphmorph/GraphMorphNonIntersect.java:1538-1601 | toggles between edit and animate mode and stops the animation |
| Frames.FrameControl.Advance | src/main/java/micycle/graphmorph/Animation.java:21-28 | one thread round does nothing unless animating. Otherwise it ticks, the rendered frame is in range, and if still animating the frame moves on by the timer's count |
| Frames.PlayForward | src/main/java/micycle/graphmorph/Animation.java:21-28 | a forward play from frame `c` renders frames `c .. T`, then `T` once more, and stops with the frame at `T-1` |
| Sorting.Sort | src/main/java/micycle/graphmorph/GraphMorphNonIntersect.java:1942-1962 | the first `n` entries become a permutation of `0..n-1` listing the old keys' positions in ascending key order. Entries from `n` on are untouched |
| Sorting.PermutationEntries | src/main/java/micycle/graphmorph/GraphMorphNonIntersect.java:1959-1961 | the positions written back are `n` distinct values in `[0, n)` |
| Sorting.FillIdentity | src/main/java/micycle/graphmorph/GraphMorphNonIntersect.java:1943-1946 | the position array starts as `0, 1, …, n-1` |
| Sorting.ExchangeSort | src/main/java/micycle/graphmorph/GraphMorphNonIntersect.java:1947-1958 | the exchange loops sort the keys and keep the position array a permutation that tracks them |
| Sorting.ExchangePass | src/main/java/micycle/graphmorph/GraphMorphNonIntersect.java:1948-1957 | one outer pass puts the smallest remaining key at position `j` and permutes the positions along with the keys |
| Sorting.Exchange | src/main/java/micycle/graphmorph/GraphMorphNonIntersect.java:1950-1955 | swaps two entries and leaves the others in place |
| Sorting.CopyPositions | src/main/java/micycle/graphmorph/GraphMorphNonIntersect.java:1959-1961 | the keys are replaced by the positions |
| Graphs.RemoveRepeatedIn | src/main/java/micycle/graphmorph/GraphMorphNonIntersect.java:1289-1303 | the nested loops leave `Dedup` of the old live links in the table, never more links than before, and the slots past the old count untouched |
| Graphs.RemoveMatchesOf | src/main/java/micycle/graphmorph/GraphMorphNonIntersect.java:1290-1302 | the inner loop leaves the later links filtered by the current one, with the count reduced to match |
| Graphs.RemapAll | src/main/java/micycle/graphmorph/GraphMorphNonIntersect.java:1470-1511 | the rewrite keeps the table length, and each link is remapped endpoint by endpoint |
| Graphs.RemapAllKeepsEdges | src/main/java/micycle/graphmorph/GraphMorphNonIntersect.java:1466-1527 | after `correctEdges` every link joins nodes of the shortened table, at the coordinates its old endpoints had, so no edge moves |
| Graphs.LookUpExtra | src/main/java/micycle/graphmorph/GraphMorphNonIntersect.java:1529-1536 | the search loop of `isInExtra` returns the original of the first matching row, or -1, exactly as `IsInExtra` states |
| Graphs.RemapEndpoint | src/main/java/micycle/graphmorph/GraphMorphNonIntersect.java:1471-1480 | one endpoint update: kept below `correctNc`, mapped to its original if it is a copy, otherwise shifted down by `extraNodeCount` |
| Graphs.RemapLinks | src/main/java/micycle/graphmorph/GraphMorphNonIntersect.java:1470-1511 | the rewrite loop remaps the first `upto` links of a table and leaves the rest |
| Graphs.CompactTable | src/main/java/micycle/graphmorph/GraphMorphNonIntersect.java:1512-1517 | the compaction loop leaves a coordinate table as `Compacted` describes |
| Graphs.BoxBounds | src/main/java/micycle/graphmorph/GraphMorphNonIntersect.java:910-935 | the scanned box holds every scanned node, and each bound is attained by some node |
| Graphs.ScanBox | src/main/java/micycle/graphmorph/GraphMorphNonIntersect.java:897-935 | the min/max loop returns the box of entries `0 .. max(1,n)-1` |
| Graphs.RingEntry | src/main/java/micycle/graphmorph/GraphMorphNonIntersect.java:953-954 | ring link `j` joins corner `n+j` to corner `n+(j+1) mod 4` |
| Graphs.FrameEncloses | src/main/java/micycle/graphmorph/GraphMorphNonIntersect.java:936-961 | the frame is an axis-parallel rectangle whose ring links are its four sides, and every scanned node lies at least 20 inside each side |
| Graphs.AppendFrame | src/main/java/micycle/graphmorph/GraphMorphNonIntersect.java:950-961 | the corner loop writes the four corners at the node count and the ring at the link count, and nothing else |
| Graphs.CornerIndices | src/main/java/micycle/graphmorph/GraphMorphNonIntersect.java:981 | the recorded corner indices are `n1, n1+1, n1+2, n1+3` |
| Graphs.RecordBorder | src/main/java/micycle/graphmorph/GraphMorphNonIntersect.java:976-988 | `borderNodes` starts with drawing 1's new corner indices |
| Graphs.Rotated | src/main/java/micycle/graphmorph/GraphMorphNonIntersect.java:1040-1049 | a rotation of the four corner values is again four values |
| Graphs.RotatedEntries | src/main/java/micycle/graphmorph/GraphMorphNonIntersect.java:1046-1049 | rotated slot `q` holds old slot `(q + s) mod 4` |
| Graphs.RotatedInverse | src/main/java/micycle/graphmorph/GraphMorphNonIntersect.java:1040-1049 | rotating back by `4 - s` restores the corners |
| Graphs.RotatedPermutes | src/main/java/micycle/graphmorph/GraphMorphNonIntersect.java:1040-1049 | the rotation permutes the corners: no corner is lost or duplicated |
| Graphs.RotateCorners | src/main/java/micycle/graphmorph/GraphMorphNonIntersect.java:1040-1049 | the copy-and-write loops rotate slots `n .. n+3` by `m - i2` and touch nothing else |
| Store.BridgeLinks | src/main/java/micycle/graphmorph/GraphMorphNonIntersect.java:1050-1059 | one bridge link is added when a bridge was found, none otherwise |
| Store.Turned | src/main/java/micycle/graphmorph/GraphMorphNonIntersect.java:1036-1049 | the rotation keeps the table length and happens only when a bridge was found |
| Store.TurnCorners | src/main/java/micycle/graphmorph/GraphMorphNonIntersect.java:1036-1049 | one coordinate table of drawing 1 is turned as `Turned` says |
| Store.AppendBridge | src/main/java/micycle/graphmorph/GraphMorphNonIntersect.java:1050-1059 | the bridge link, if any, goes right after the ring |
| Store.FrameFirst | src/main/java/micycle/graphmorph/GraphMorphNonIntersect.java:895-961 | drawing 0 gets the corners of its widened box at `n .. n+3`, then the ring and the bridge link after its links |
| Store.FrameSecond | src/main/java/micycle/graphmorph/GraphMorphNonIntersect.java:962-1059 | drawing 1 gets its corners at `n1 .. n1+3`, turned at slots `n .. n+3`. The ring over `n .. n+3` and the bridge go after its links, and `borderNodes` gets the corner indices |
| Store.CompactDrawing | src/main/java/micycle/graphmorph/GraphMorphNonIntersect.java:1512-1517 | both coordinate tables of one drawing are compacted alike |
| Store.WithBoundary | src/main/java/micycle/graphmorph/GraphMorphNonIntersect.java:895-1060 | the tables after `addBoundary` keep their allocated sizes |
| Store.AddFrames | src/main/java/micycle/graphmorph/GraphMorphNonIntersect.java:895-1060 | the seven tables end up exactly as `WithBoundary` describes |
| Store.GraphStore.constructor | src/main/java/micycle/graphmorph/GraphMorphNonIntersect.java:184-187 | the applet starts with empty drawings and tables of their allocated sizes |
| Store.GraphStore.Reset | src/main/java/micycle/graphmorph/GraphMorphNonIntersect.java:864-869 | both drawings and the extra-node table become empty |
| Store.GraphStore.RemoveRepeated | src/main/java/micycle/graphmorph/GraphMorphNonIntersect.java:1288-1319 | each edge table's live links become `Dedup` of the old ones, the counts never grow, and nothing else changes |
| Store.GraphStore.CorrectEdges | src/main/java/micycle/graphmorph/GraphMorphNonIntersect.java:1466-1527 | rewrites the first `currentLinkCount[0]` links of both tables and compacts all four coordinate tables. Both node counts shrink by the number of copies, the extra-node table is emptied, and a new round starts |
| Store.GraphStore.AddBoundary | src/main/java/micycle/graphmorph/GraphMorphNonIntersect.java:895-1060 | the tables become `WithBoundary` of the old ones. Node counts grow by 4 and link counts by 4 plus the bridge, and `bc` becomes 4 |

## Left out

- The bridge search of `addBoundary` (lines 991-1039) is left out. It uses `calcFramesRigid`, the angle `rtheta`, floating-point distances and `edgeCross`. `Store.GraphStore.AddBoundary` takes its outcome as the `Bridge` parameter (none, or corner, turn and node).
- Store.GraphStore.AddBoundary: requires room for four more nodes and five more links in each table. Java would throw `ArrayIndexOutOfBoundsException` past the 200/800 capacities instead.
- Store.GraphStore.CorrectEdges: requires `extraNodeCount` not to exceed either node count. The triangulation builder guarantees this, because every copy is a node it appended.
- Store.GraphStore.RemoveRepeated: the contents of the slots between the new and the old link count are not stated. Only the live links and the slots from the old count on are.
- Geometry.EdgeCross: Java's 32-bit overflow of the coordinate products is not modelled; integers are unbounded. The `double` conversion of exact integer products is exact in this range.
- Triangulation.Triangulate: `getInsideVertex` is an oracle parameter, constrained only to return -1 or a position other than the leftmost one and its two neighbours. Its floating-point point-in-triangle test is left out.
- Triangulation.Triangulate: requires room in the link table for `max(0, n-3)` more links, where Java would throw.
- Faces.NeighbourLists: the rest of `preFindAllPoly` is left out. That is the face walk that picks the next neighbour by `atan2` angle, and the extra-node bookkeeping it drives. It relies on floating-point angles.
- Motion.LinearMotion: drawing is left out (`drawAnimatedGraph`). The method returns the positions and colours instead.
- The floating-point motions `rigid1`, `rigid2`, `ConvexMotion`, `calcFramesRigid` are left out. So are the convex-embedding solver and the linear-equation helpers. They rely on `double` arithmetic and trigonometry. `tick`'s dispatch to them is modelled by the `Motion.Step` value naming the routine and its frame range.
- Frames.FrameControl.Advance: the `Timer` thread is left out. The frames it adds to `d` while the `Animation` thread ticks become a parameter. Interleaving with the AWT event thread is not modelled.
- Frames.FrameControl.ChangeMode: enabling and disabling widgets, redrawing, and the precomputation that `changeMode` starts are left out.
- Sorting.Sort: the keys are Java `double`s, modelled as reals. NaN keys, for which every `<` comparison is false, are not covered, and neither is rounding.
- The `nodeCount`/`edgeCount` fields, the colour scrollbars and all other AWT widgets are not part of this model. File loading and saving, mouse editing and `redrawGraph` are not part of it either.
- `GraphMorph.java` is the older morph without the non-intersection guarantee, and it is not part of this model.
