# Delaunay tetrahedralization, Voronoi grouping and CSG mesh plumbing

This project is a Dafny model of the combinatorial core of unity-voronoi-csg.

The repository builds a 3D Delaunay tetrahedralization incrementally. A bounding tetrahedron is split at each new point. The faces of the split are then legalized with 2-3 and 3-2 bistellar flips. The repository turns the tetrahedralization into a Voronoi graph and converts Unity meshes to and from CSG trees.

The model covers four parts:

- the cell graph `DelaunayGraphNode3D`, with its neighbour bookkeeping and its three cell operations;
- the builder `BistellarFlip3D`, with its live-cell list and its LIFO face stack;
- the node collection of the `VoronoiGraph3D` constructor, and the per-node face grouping of `VoronoiGraphNode3D.Meshilify`;
- the mesh/polygon conversions of `CSG`: `GenCsgTree`, `Meshing` and `Fragmentize`.

Points are vertex ids compared by exact equality, as the C# code compares `double3` values. Every floating-point test the code branches on is a parameter, given as a total function. These are:

- tetrahedron containment;
- the circumsphere test;
- triangle/segment intersection and its on-edge flag;
- the far-vertex crossing test;
- the 1e-5 orthogonality test of `AssignSegment`;
- the orientation test of `GenCsgTree`;
- the polygon plane.

Cells live in an arena keyed by id. A cell operation adds its new cells under fresh ids and then performs its `SetNeighbor` calls in source order. Retired cells stay in the arena, as C# objects do once no list refers to them.

Modules, one per file:

- `Wrappers` (`wrappers.dfy`): `Option`, `Result` and small sequence facts.
- `Simplex` (`simplex.dfy`): triangles, segments, tetrahedra and `RemainingPoint`.
- `Cells` (`cells.dfy`): `HasFacet`, `GetFacingNode`, `ReplaceFacingNode`, `SetNeighbor`, and the fold of many `SetNeighbor` calls.
- `CellMoves` (`moves.dfy`): `Split`, `Flip23`, `Flip32`.
- `Builder` (`builder.dfy`): the builder's `Split`, `FindNodes`, `Leagalize` and the constructor.
- `Voronoi` (`voronoi.dfy`): the `VoronoiGraph3D` constructor and the `Meshilify` grouping.
- `Csg` (`csg.dfy`): `GenCsgTree`, `Meshing`, `Fragmentize`.

## Model

| member | source | states |
|---|---|---|
| Simplex.RemainingPointCompletes | Assets/BisterllarFlip/BistellarFlip3D.cs:143-144 | On a tetrahedron with four distinct corners that has `t` as a face, the remaining point exists, and the tetrahedron is exactly `t` plus that point. |
| Cells.FirstWithFacet | Assets/BisterllarFlip/BistellarFlip3D.cs:102 | `List.Find`: the position returned is the first entry that has the facet; no result means no entry has it. |
| Cells.FacingNode | Assets/BisterllarFlip/BistellarFlip3D.cs:100-103 | `GetFacingNode` is null exactly when the cell lacks `t` or no neighbour has `t`. Otherwise it is the earliest neighbour sharing `t`. |
| Cells.Substitute | Assets/BisterllarFlip/BistellarFlip3D.cs:97 | The `Select`: the length is kept, and each entry having facet `t` becomes the replacer while every other entry stays. |
| Cells.ReplaceFacing | Assets/BisterllarFlip/BistellarFlip3D.cs:95-98 | A replacer without the facet changes nothing. Otherwise only `self`'s list changes: same length, entries across `t` redirected to the replacer, and afterwards the replacer is the only entry across `t`. No link comes to dangle. |
| Cells.SetNeighbor | Assets/BisterllarFlip/BistellarFlip3D.cs:87-93 | No facing node means no change. Otherwise `n` gains exactly the facing node at the end of its list. The facing node's entries across `t` point at `n`, and every other cell is unchanged. Tetrahedra are never touched. |
| Cells.TakeOver | Assets/BisterllarFlip/BistellarFlip3D.cs:89-92 | The found branch: `n` grows by one entry, `pair`, and `pair`'s entries across `t` become `n` when `n` has the facet. No other cell changes. |
| Cells.Attach | Assets/BisterllarFlip/BistellarFlip3D.cs:90 | `n.neighbor.Add(pair)`: `pair` is appended to `n`'s list, and nothing else changes. |
| Cells.SetNeighborSymmetric | Assets/BisterllarFlip/BistellarFlip3D.cs:87-98 | After `SetNeighbor`, when the facing node listed the retiring cell, the new link is two-way: `n` lists it, it lists `n`, and it no longer lists the retiring cell. |
| Cells.SetNeighborRelinks | Assets/BisterllarFlip/BistellarFlip3D.cs:87-98 | When `n` has the facet, the neighbour found across `t` keeps its tetrahedron and its list becomes the `Select` of its old list: every entry across `t` is now `n`. |
| Cells.SubstituteBack | Assets/BisterllarFlip/BistellarFlip3D.cs:97 | After the `Select`, a listed entry across `t` other than the replacer is listed no more, and the replacer is listed. |
| Cells.Splice | Assets/BisterllarFlip/BistellarFlip3D.cs:39-42 | A run of `SetNeighbor` calls keeps every id and tetrahedron and keeps links non-dangling. It grows each list by at most the number of calls that attach to it. |
| Cells.SpliceIndependent | Assets/BisterllarFlip/BistellarFlip3D.cs:54-59 | When no call can disturb another, the sources keep their lists. Each new cell ends with its own list followed by what each of its calls finds in the original arena, in call order. |
| Cells.SpliceKeeps | Assets/BisterllarFlip/BistellarFlip3D.cs:78-83 | An old cell that no call can take over is left exactly as it was by the whole run of calls. |
| Cells.SpliceUntouched | Assets/BisterllarFlip/BistellarFlip3D.cs:87-93 | An old cell that no call of an independent run finds across its face ends exactly as it was. |
| Cells.SpliceRelinks | Assets/BisterllarFlip/BistellarFlip3D.cs:39-42 | The outside half of an independent run: when call `i` alone finds neighbour `q` and the attached cell has the face, `q` ends with its old list with every entry across the face replaced by the attached cell. |
| CellMoves.Graft | Assets/BisterllarFlip/BistellarFlip3D.cs:48-59 | Adding new cells and then running the calls: ids are fresh, old tetrahedra are kept, and new cells have their tetrahedra. Each new list lies between its own length and that plus the calls attaching to it. Under independence the sources are untouched and new lists are exactly own list plus what was found. When links are also non-dangling, each neighbour that one call alone finds is relinked to the cell that call attaches. |
| CellMoves.Split | Assets/BisterllarFlip/BistellarFlip3D.cs:29-44 | Four fresh cells, cell `i` being `p` joined with face `i` (abc, bcd, cda, dab) of the old tetrahedron, and the four faces are handed back. When `self` lists only other arena cells, `self` keeps its list and each new cell lists its three siblings and then exactly the neighbour `self` had across its face. If links are also non-dangling, each neighbour found across face `i` and across no other face is relinked to new cell `i`. On a non-degenerate cell with `p` off its corners, face `i` lies on new cell `j` only when `i == j`. |
| CellMoves.SplitSiblings | Assets/BisterllarFlip/BistellarFlip3D.cs:35-38 | New cell `i` of a split starts out listing new cell `j` exactly when `j != i`. |
| CellMoves.SplitFacesApart | Assets/BisterllarFlip/BistellarFlip3D.cs:31-34 | Face `i` of the split lies on the child built on face `j` only when `i == j`. |
| CellMoves.SplitBornFaces | Assets/BisterllarFlip/BistellarFlip3D.cs:31-34 | New cell `i` of a split has face `i`, so the `HasFacet` guard of `ReplaceFacingNode` passes for every call. |
| CellMoves.Flip23 | Assets/BisterllarFlip/BistellarFlip3D.cs:46-61 | Three fresh cells around edge p1-p2, one per edge ab, bc, ca of `t`, which together cover exactly `t` plus both apexes, and the six faces in return order. Suppose the owners link only to other cells and neither holds the other's apex. Then the owners are untouched, and new cell `i` lists its two siblings, then what `n1` had across face `2i`, then what `n2` had across face `2i+1`. If links are also non-dangling, each outside neighbour found by one call alone is relinked to that call's new cell. |
| CellMoves.Flip23FacesVerts | Assets/BisterllarFlip/BistellarFlip3D.cs:54-59 | Face `i` handed back by a 2-3 flip is edge `i/2` of `t` with apex `p1` (even `i`) or `p2` (odd `i`). |
| CellMoves.Flip23Siblings | Assets/BisterllarFlip/BistellarFlip3D.cs:51-53 | New cell `i` of a 2-3 flip starts out listing new cell `j` exactly when `j != i`. |
| CellMoves.Flip23BornFaces | Assets/BisterllarFlip/BistellarFlip3D.cs:54-59 | Face `i` of a 2-3 flip lies on new cell `i/2`, the cell it is spliced into. |
| CellMoves.Flip32 | Assets/BisterllarFlip/BistellarFlip3D.cs:63-85 | Two fresh cells abc+x and abc+y, both having face abc, and the six faces in return order. Under the no-interference hypothesis the three old cells are untouched, and each new cell lists the other and then what `n1`, `n2`, `n3` had across its three outer faces, in call order. If links are also non-dangling, each outside neighbour found by one call alone has its entries across that face redirected to the call's new cell. |
| CellMoves.Flip32FacesVerts | Assets/BisterllarFlip/BistellarFlip3D.cs:72-77 | Faces `i` and `i+3` of a 3-2 flip are edge `i` of abc with apex x and with apex y. |
| CellMoves.Flip32BornFaces | Assets/BisterllarFlip/BistellarFlip3D.cs:72-83 | Face `i` of a 3-2 flip lies on new cell `i/3`, the cell it is spliced into. |
| Builder.Initial | Assets/BisterllarFlip/BistellarFlip3D.cs:113-115 | The starting state satisfies the builder invariant: the root is the one live cell and the stack is empty. |
| Builder.Remove | Assets/BisterllarFlip/BistellarFlip3D.cs:128 | `List.Remove`: an absent id leaves the list as it is; a present one shortens it by one. |
| Builder.RemoveDistinct | Assets/BisterllarFlip/BistellarFlip3D.cs:154-155 | On a list without repeats, `Remove` drops exactly `x`: every other entry stays and there are still no repeats. |
| Builder.RemoveAt | Assets/BisterllarFlip/BistellarFlip3D.cs:183-185 | Entries before the removed one keep their places; later ones move up by one. |
| Builder.FirstContaining | Assets/BisterllarFlip/BistellarFlip3D.cs:126 | `nodes.Find`: the first live cell that contains `p`, or none when no live cell does. |
| Builder.Owners | Assets/BisterllarFlip/BistellarFlip3D.cs:194-198 | `FindAll`: exactly the live cells having facet `t`, in live-list order, with no repeats when the live list has none. |
| Builder.Insert | Assets/BisterllarFlip/BistellarFlip3D.cs:125-137 | Fails exactly when no live cell contains `p`. Otherwise the first containing cell leaves the live list and its four children are appended. Its four faces are pushed and the invariant is kept. |
| Builder.FarVertex | Assets/BisterllarFlip/BistellarFlip3D.cs:161-165 | The far vertex is the first of a, b, c, in that order, whose crossing test succeeds. There is none exactly when all three tests fail (the `throw`). |
| Builder.Classify | Assets/BisterllarFlip/BistellarFlip3D.cs:141-176 | A face not owned by exactly two live cells is dropped. When both owners have apexes the plan is decided both ways. Outside the sphere: drop. Inside and intersecting: 2-3 with the owners and apexes. On an edge: drop. Otherwise the far-vertex case: no far vertex or no third cell is an error, a third cell whose apex is not `p2` is a drop, and else a 3-2 plan. Every plan returned meets its tests, and each throw or null dereference is an error. |
| Builder.Step | Assets/BisterllarFlip/BistellarFlip3D.cs:140-188 | One turn fails exactly when the plan does, with the same error, and a drop only pops. A 2-3 turn adds three cells, each an edge of the popped face with both apexes, removes the two owners from the live list, appends the new cells, and pushes the six faces. A 3-2 turn adds the two cells p1-far-p2 with `x` and with `y`, removes the three old cells, and pushes six faces. The invariant is kept and the arena only grows. |
| Builder.Turn23 | Assets/BisterllarFlip/BistellarFlip3D.cs:147-158 | The 2-3 branch: three new cells replace the two owners in the live list, the live list grows by one, and the six faces are pushed over the popped stack. |
| Builder.Turn32 | Assets/BisterllarFlip/BistellarFlip3D.cs:176-187 | The 3-2 branch: two new cells replace the three old ones, the live list shrinks by one when the third cell is live and different, and six faces are pushed. |
| Builder.OwnedTwice | Assets/BisterllarFlip/BistellarFlip3D.cs:194-198 | The two owners `FindNodes` reports are distinct live cells, and the second is still live after the first is removed. |
| Builder.Tally | Assets/BisterllarFlip/BistellarFlip3D.cs:141-187 | One loop turn, with its flip counted: it fails exactly when the plan does. On success the state it leaves is one turn on (`Turned`: the plan is made, a drop only pops, a flip leaves what `Flipped23` or `Flipped32` describes). A 2-3 flip adds three ids, pushes six faces and one live cell; a 3-2 flip adds two ids, pushes six faces and removes at most one live cell. |
| Builder.Legalize | Assets/BisterllarFlip/BistellarFlip3D.cs:139-192 | The trace of states the `while` loop passes through starts at the input, and each state is one turn (`Turned`) on from the one before, so every turn classifies its popped face and drops it or carries out the 2-3 or 3-2 plan. On success the last state is the result, with an empty stack; on failure a face is left and the error is the spent fuel or the plan for that face. The turns are the faces first on the stack plus six per flip; ids advance by three per 2-3 flip and two per 3-2 flip; each 2-3 flip adds one live cell and each 3-2 flip removes at most one. The first plan's flip is counted, an empty stack changes nothing, and a stack of boundary faces is simply emptied. |
| Builder.FirstSplitBoundary | Assets/BisterllarFlip/BistellarFlip3D.cs:116 | After the first insertion each face of the root is owned by one live cell only, so the first `Leagalize` flips nothing. |
| Builder.FirstInsert | Assets/BisterllarFlip/BistellarFlip3D.cs:116 | Splitting the root at an inner point off its corners leaves the four children live, each the point with one face of the root, and only boundary faces on the stack. |
| Builder.ChainExtend | Assets/BisterllarFlip/BistellarFlip3D.cs:139-141 | A run of loop turns followed by one more turn from its last state is again a run of loop turns. |
| Builder.BoundaryChain | Assets/BisterllarFlip/BistellarFlip3D.cs:141-142 | From a stack of boundary faces (none owned by exactly two live cells), the `k`-th state of any run of turns has popped `k` faces and changed nothing else. |
| Builder.Settled | Assets/BisterllarFlip/BistellarFlip3D.cs:139-142 | For any run of turns ending as the loop does: an empty stack takes no turn, a stack of boundary faces with fuel enough is emptied without a flip, and a first plan that is an error is the result at once. |
| Builder.SweepExtend | Assets/BisterllarFlip/BistellarFlip3D.cs:116 | A sweep of `Add` runs followed by one more run from where it ends is a sweep over one more point. |
| Builder.SingleSweep | Assets/BisterllarFlip/BistellarFlip3D.cs:116 | A sweep over one point inside the root, off its corners, ends with the root's four children live. |
| Builder.FirstTurns | Assets/BisterllarFlip/BistellarFlip3D.cs:116 | While the first point's legalizing is unfinished, fewer than four turns have been taken and the face on top is a root face with one live owner, so its plan is to drop it: the first turn of the loop cannot fail. |
| Builder.SweepCases | Assets/BisterllarFlip/BistellarFlip3D.cs:112-123 | From a sweep and where it stopped alone: no points means the root alone, a first point outside the root means `NoContainingCell`, and one point inside the root means success with four live cells. |
| Builder.Add | Assets/BisterllarFlip/BistellarFlip3D.cs:116 | `Split(p); Leagalize()`: on success the run of states starts with exactly what `Split` leaves (`Inserted`: the first containing cell retired, its four children appended, its four faces pushed), continues one legalizing turn at a time, and ends at the result with an empty stack; ids advance by four plus the flips. On failure (`AddFailed`) a point no live cell contains is `NoContainingCell` before anything happens; otherwise the run is the insertion followed by legalizing turns, its last state has a face left, and the error is that face's plan or `OutOfFuel` after exactly `fuel` turns. The first point inside the root leaves exactly its four children live. |
| Builder.Build | Assets/BisterllarFlip/BistellarFlip3D.cs:112-123 | The constructor loop: on success there is one `Add` run per point, in order, each starting where the previous one ended and the first at the root alone (`Sweep`); the result is where the last ends, with an empty stack, and the ids advance by four per point plus the flips. On failure point `k` is the one whose turn failed: the points before it form a sweep ending in a state with an empty stack, and from there the turn for point `k` fails as `Add` states (`AddFailed`). No points leaves the root alone. A first point outside the root fails with `NoContainingCell`. One point inside leaves four live cells. |
| Builder.Do23Fits | Assets/BisterllarFlip/BistellarFlip3D.cs:143-147 | For non-degenerate cells, a 2-3 plan has owners that are `t` plus their apexes, neither holding the other's apex, and each handed face lies on the owner it is spliced through. |
| Builder.Do32Fits | Assets/BisterllarFlip/BistellarFlip3D.cs:167-176 | For non-degenerate cells, a 3-2 plan has owners that are `t` plus their apexes. The third cell is the edge x-y with both apexes, and each handed face lies on the cell it is spliced through. |
| Voronoi.Roles | Assets/BisterllarFlip/BistellarFlip3D.cs:277-288 | The twelve `AssignSegment` argument pairs, in call order, are all corners of the tetrahedron and pairwise distinct when it is non-degenerate. |
| Voronoi.RolesCover | Assets/BisterllarFlip/BistellarFlip3D.cs:277-288 | Every ordered pair of distinct corners is one of the twelve calls. |
| Voronoi.AddCorners | Assets/BisterllarFlip/BistellarFlip3D.cs:269-272 | After the four adds the keys are the old ones plus the corners, and existing nodes are kept. |
| Voronoi.Matching | Assets/BisterllarFlip/BistellarFlip3D.cs:277-288 | A segment tagged `u` is selected for `v` exactly when `(u, v)` is a call and the segment is orthogonal to their edge. |
| Voronoi.AssignAll | Assets/BisterllarFlip/BistellarFlip3D.cs:274-288 | The twelve calls for one segment add, to each existing node, exactly the segments `Matching` selects for it. |
| Voronoi.Across | Assets/BisterllarFlip/BistellarFlip3D.cs:273-289 | A vertex that is not a corner of the cell gets nothing from the cell's neighbour loop. |
| Voronoi.AssignNeighbours | Assets/BisterllarFlip/BistellarFlip3D.cs:273-289 | The neighbour loop appends to each existing node exactly what its cell records under it, neighbour by neighbour. |
| Voronoi.Visit | Assets/BisterllarFlip/BistellarFlip3D.cs:266-289 | One cell of the `foreach`: the keys gain its corners, an existing node keeps its centre and old segments, and new nodes start empty. |
| Voronoi.GatherAt | Assets/BisterllarFlip/BistellarFlip3D.cs:266-290 | A node is never reset: its segments are what it had plus everything the remaining cells record under it, in cell order. |
| Voronoi.ConstructMeaning | Assets/BisterllarFlip/BistellarFlip3D.cs:264-300 | The graph has one node per distinct corner of the cells, centred on that corner, holding exactly the segments recorded under it. |
| Voronoi.RecordedComplete | Assets/BisterllarFlip/BistellarFlip3D.cs:273-297 | Completeness: every segment from a cell to a neighbour that is orthogonal to the edge of two distinct corners `u`, `v` is recorded under `v` tagged `u`. |
| Voronoi.RecordedSound | Assets/BisterllarFlip/BistellarFlip3D.cs:273-297 | Soundness: a segment recorded under `v` leaves the tetrahedron of a cell having `v` and the tag as corners, reaches the tetrahedron of one of its neighbours, and passed the orthogonality test. |
| Voronoi.AcrossSound | Assets/BisterllarFlip/BistellarFlip3D.cs:273-297 | Soundness: what a cell records under `v` leaves that cell's tetrahedron towards one of its neighbours, is tagged with a corner, and passed the orthogonality test. |
| Voronoi.Dedup | Assets/BisterllarFlip/BistellarFlip3D.cs:245 | LINQ `Distinct`: each pair once, nothing else, in order of first appearance. |
| Voronoi.Filter | Assets/BisterllarFlip/BistellarFlip3D.cs:248 | The segments of a face are exactly those tagged with its key. |
| Voronoi.Distribute | Assets/BisterllarFlip/BistellarFlip3D.cs:246-249 | The double loop leaves each face with its old segments followed by those tagged with its key. |
| Voronoi.Group | Assets/BisterllarFlip/BistellarFlip3D.cs:245-249 | One face per distinct pair in first-appearance order, each holding exactly the segments tagged with its key. |
| Voronoi.GroupPlaces | Assets/BisterllarFlip/BistellarFlip3D.cs:245-249 | Face keys are distinct, and every segment lands in the face keyed by its pair. |
| Voronoi.GroupFaces | Assets/BisterllarFlip/BistellarFlip3D.cs:245-249 | No face is empty, and a face holds only segments tagged with its key. |
| Csg.Fan | Assets/CSG/CsgUtils.cs:56-60 | A polygon of `k` vertices fans into `k-2` triangles (none below three): triangle `t` is `(v0, v[t+1], v[t+2])`. |
| Csg.Emit | Assets/CSG/CsgUtils.cs:56-67 | The inner loop appends the polygon's fan, the same number of copies of its normal, and indices continuing the count. |
| Csg.Meshing | Assets/CSG/CsgUtils.cs:47-75 | The vertex buffer is the fans of all polygons in order. Every vertex has its polygon's normal, the three buffers have the same length, and the index buffer counts up from zero. |
| Csg.FanTriangles | Assets/CSG/CsgUtils.cs:54-67 | A tree of triangles meshes into its own corners, three per polygon, in polygon order. |
| Csg.ShadeTriangles | Assets/CSG/CsgUtils.cs:57-63 | For a tree of triangles, the three emitted normals of polygon `j` are its plane normal. |
| Csg.TotalTriangles | Assets/CSG/CsgUtils.cs:56 | A tree of triangles emits exactly one triangle per polygon. |
| Csg.Fragmentize | Assets/CSG/CsgUtils.cs:77-100 | Succeeds exactly when every index addresses both source buffers; an index out of range is the runtime's range error. Output element `i` is the vertex and normal that index `i` selects, and the index buffer is the identity, so the output selects the same corners as the input. |
| Csg.Wind | Assets/CSG/CsgUtils.cs:36-42 | A triangle keeps its first corner and its three corners, in order when counter-clockwise about the normal, else with the last two swapped. |
| Csg.Orient | Assets/CSG/CsgUtils.cs:32-43 | One polygon per vertex triple. Each is a triangle that keeps the triple's first vertex and is a permutation of the triple, wound by the normal of its first vertex, with the plane the polygon constructor computes. |
| Csg.GenCsgTree | Assets/CSG/CsgUtils.cs:12-45 | Fragmentizes unless told the mesh already is, then builds the triples. A vertex count not divisible by three fails with `NotTriangles`; on an already fragmentized mesh with too few normals, `ns[i]` fails with `MissingNormal`; an index out of range fails with `IndexOutOfRange`. Every polygon produced is a triangle. |
| Csg.MeshingSoup | Assets/CSG/CsgUtils.cs:32-67 | Meshing the polygons built from a triangle soup gives back the soup up to the winding of each triangle: same length, same first corner, same corners per triangle. |

## Left out

- Geometry is not modelled. These tests are parameters: tetrahedron containment, the circumsphere, segment/triangle intersection and its on-edge flag, `Util3D.IsIntersecting` with its 1e-15 tolerance, the 1e-5 dot-product test, the cross/dot orientation test and the `Polygon` plane. `Tetrahedra`, `Triangle`, `Segment`, `Util3D`, `Polygon` and `CsgTree` are not part of this model.
- `Tetrahedra.RemainingPoint` is taken to return a corner off the face (the first in a, b, c, d order). When an owner has none it is the error `NoRemainingPoint`. When the third cell has none, the result counts as different from `p2`, so the face is dropped (the `continue`).
- `Triangle.Remaining(far)` is taken to return the edge opposite `far` read cyclically, the same edge the far-vertex test pairs with `far`.
- Builder.Legalize: the `while` loop has no bound in C#. The model takes a fuel bound and fails with `OutOfFuel` when it runs out, so it does not state termination. The loop's trace pins down each turn only as far as `Turned` does: the tetrahedra of the new cells and the live list and stack, while the new cells' neighbour lists are stated by the cell moves (see CellMoves below).
- Builder.Build: the `UR.value` random points are an input sequence. The commented-out root filter is not modelled.
- CellMoves.Split: it hands back the faces of the split tetrahedron (`abc.t` … `dab.t`), as the code does. These are the outer faces that the new cells share with the outside, not the internal faces between the children.
- CellMoves.Split: its exact neighbour lists are stated only when `self` lists only other arena cells (`Proper`). A cell that lists itself or a dangling id is not covered.
- CellMoves.Flip23 and CellMoves.Flip32: their exact neighbour-list equations are stated under a no-interference hypothesis. Without it only the shape, freshness and bounds are stated.
- CellMoves.Split, CellMoves.Flip23 and CellMoves.Flip32: the relinking of outside neighbours is stated for links that do not dangle (`Closed`). It covers only a neighbour that one call alone finds (`Sole`). A neighbour found across two faces of the same move is not covered.
- Builder.Do23Fits and Builder.Do32Fits assume non-degenerate tetrahedra and faces. Degenerate inputs are not excluded by the builder.
- The Unity `Mesh` objects are not modelled, nor `RecalculateNormals`, `RecalculateBounds`, `RecalculateTangents`, `CombineMeshes` or the `UInt32` index format. Csg.Meshing returns the three buffers as handed to `SetVertices`, `SetNormals` and `SetTriangles`, although `RecalculateNormals` then recomputes the mesh's own normals. Csg.Fragmentize returns the `out` lists.
- Csg.GenCsgTree: `Transform.TransformPoint`/`TransformDirection` and the `float3` casts are taken as the identity. The `CsgTree` built from the polygons is the polygon sequence itself.
- Csg.GenCsgTree: the `Assert.IsTrue(vs.Count % 3 == 0)` is modelled as the failure `NotTriangles`. A Unity assertion may only log, after which the loop would drop the trailing vertices.
- Csg.Meshing: the `(float3)` casts of the polygon vertices and of the plane normal are taken as the identity.
- Csg.Meshing: the `int` counter `count` is unbounded in the model. The C# counter would overflow past 2^31 - 1 indices.
- `VoronoiGraphFace3D.Meshilify` (the face mesh, lines 212-231) is not modelled. Neither are the node mesh combination (251-257) and the circumcentre computation. A segment is named by the two tetrahedra whose circumcentres it joins.
- Voronoi face keys: the C# code casts `pair` to `float3` and compares `Vector3` values approximately. The model keys faces by the vertex itself.
- `Debug.LogWarning` calls (point on edge, clockwise winding) are not modelled.
