# Asteroid mesh splitter, modelled in Dafny

`AsteroidSplitter.Cut` cuts an asteroid's triangle mesh in two with a plane
given by a point and a normal. It does not create new vertices on the cut.
Instead it proceeds in four steps:

1. **Partition.** Each triangle with all three corners on one side of the
   plane is copied to that side. A triangle that crosses the plane is
   dropped, and its two corners on the majority side are recorded as one
   "non-manifold" edge of that side. Vertices are shared by exact
   position: `List.IndexOf` first, and an append only when the position is
   new.
2. **Hole fill.** Each side's hole is closed with a fan. A new vertex is
   placed at the mean of the recorded edge ends. Each recorded edge
   becomes one triangle with that vertex, flipped when needed so that its
   normal does not point against the side's view direction: `-normal` on
   the left, `+normal` on the right.
3. **Recentre.** Each side's vertices are shifted onto their centroid.
4. **Emit.** A side becomes a new asteroid only when its vertex counter is
   at least four.

The model works over exact real vectors (`Vectors.Vec3`).

- The mesh and the plane are parameters.
- The result is either an error, or a pair of optional `Splitter.Fragment`s. Each fragment holds:
  - the recentred vertices;
  - the triangle indices;
  - the centroid the vertices were moved by;
  - the push the half receives (half the normal, away from the other half).
- `Meshes` gives an independent description of the partition, triangle by
  triangle: `Copied` lists the corners of whole triangles and `Boundary`
  lists the kept corners of dropped ones. The loop is proved to agree with
  it.

Modules follow the steps:

| file | module | contents |
|---|---|---|
| `vectors.dfy` | `Vectors` | vector operations |
| `planes.dfy` | `Planes` | the side test |
| `vertex_list.dfy` | `VertexList` | `IndexOf` and the dedup insert |
| `meshes.dfy` | `Meshes` | the reference description |
| `partition.dfy` | `Partition` | step 1 |
| `hole_fill.dfy` | `HoleFill` | step 2 |
| `recentering.dfy` | `Recentering` | step 3 |
| `splitter.dfy` | `Splitter` | step 4 and the whole cut |

### Where the code is followed

- **Point on the plane.** `GetSide` is a strict test, so a point on the
  plane goes to the right (`false`) side.
- **Triangle with one corner on a side.** Such a triangle contributes
  nothing to that side. Only the two majority corners are recorded. So a
  side that holds one corner of every crossing triangle and no whole
  triangle gets no vertices at all.
- **Raw normal.** The fan winding and the push use `planeNormal` itself,
  not the plane's normalised normal, exactly as the source does.
- **Short normal.** Unity's `Plane` constructor normalises the normal with
  `Vector3.Normalize`. That function returns the zero vector when the
  magnitude is at most `Vector3.kEpsilon` (1e-5). `Planes.GetSide` therefore
  tests the raw normal only when its squared length exceeds 1e-10, and
  otherwise puts every point on the right (`false`) side
  (`Planes.NormalisedSide`).
- **Winding ties.** The source swaps an edge only when the dot product is
  negative. A face exactly edge-on to the view direction keeps its recorded
  order, and the model states this too.
- **Cap orientation.** The view direction (`-normal` on the left, `+normal`
  on the right) points out of a half through the cut, towards the other
  half. The cap faces that way, which is outward for the half. Only the
  push points away from the other half.

## Model

| member | source | states |
|---|---|---|
| VertexList.IndexOf | Assets/AsteroidSplitter.cs:73 | returns -1 exactly when the position is absent, and otherwise the first index holding it |
| VertexList.Intern | Assets/AsteroidSplitter.cs:73-82 | a position already in the list reuses its index and leaves the list unchanged; a new one is appended and gets the counter as its index; the counter stays equal to the length; the list stays free of repeats |
| VertexList.DistinctCardinality | Assets/AsteroidSplitter.cs:54-55 | a repeat-free vertex list has as many entries as distinct positions, so the counter counts distinct positions |
| Planes.GetSide | Assets/AsteroidSplitter.cs:62 | a point on the `true` side is never the plane's anchor point, and a zero normal puts no point there |
| Planes.NormalisedSide | Assets/AsteroidSplitter.cs:21-22 | for a normal longer than `kEpsilon`, the side test agrees with the strict test against any positive multiple of the normal, the normalised one included; for a shorter normal, which Unity normalises to zero, no point is on the `true` side |
| Planes.MeanKeepsSide | Assets/AsteroidSplitter.cs:168-174 | the mean of positions that all lie on one side lies on that side |
| Meshes.Classify | Assets/AsteroidSplitter.cs:59-63 | the three corners read for triangle `t` are mesh vertices, and each corner's recorded side is `GetSide` of its position |
| Meshes.Triangles | Assets/AsteroidSplitter.cs:57-63 | the loop visits one triangle per three indices, and each corner's recorded side is `GetSide` of its position |
| Meshes.Edge | Assets/AsteroidSplitter.cs:109-152 | a crossing triangle contributes to its majority side exactly its corners on that side, in corner order |
| Meshes.StraddleLeavesAnEdge | Assets/AsteroidSplitter.cs:109-152 | a crossing triangle has exactly two corners on its majority side and at least one on the other |
| Meshes.CopiedTriples | Assets/AsteroidSplitter.cs:65-100 | the copied corners of a side are three per whole triangle on it |
| Meshes.BoundaryPairs | Assets/AsteroidSplitter.cs:109-152 | the boundary corners of a side are two per crossing triangle whose majority is that side |
| Meshes.CountsAddUp | Assets/AsteroidSplitter.cs:65-153 | every triangle is whole on the left, whole on the right, or dropped towards exactly one side |
| Meshes.TriangleBudget | Assets/AsteroidSplitter.cs:57-154 | copied corners come in threes and boundary corners in pairs; whole triangles of both sides plus boundary edges of both sides number exactly the input triangles |
| Meshes.CornersLieOnTheirSide | Assets/AsteroidSplitter.cs:62-69 | every copied or boundary corner handed to a side satisfies `GetSide` for that side |
| Partition.AddCorner | Assets/AsteroidSplitter.cs:73-82 | copying one corner appends exactly one index to the triangle list and leaves the edge list alone; the vertex list only grows, and is unchanged when the position is already there; with the counter in step, the new index is in range and refers to the copied position |
| Partition.AddEdgeEnd | Assets/AsteroidSplitter.cs:120-129 | recording one edge end appends exactly one index to the non-manifold list and leaves the triangle list alone; the vertex list only grows, and is unchanged when the position is already there; with the counter in step, the new index is in range and refers to the recorded position |
| Partition.CornerAdded | Assets/AsteroidSplitter.cs:71-83 | copying one corner keeps the side well indexed and every vertex used, extends the resolved triangle list by that position, and leaves the resolved edge list unchanged |
| Partition.EdgeEndAdded | Assets/AsteroidSplitter.cs:118-129 | recording one edge end keeps the side well indexed and every vertex used, extends the resolved edge list by that position, and leaves the resolved triangle list unchanged |
| Partition.CopyWhole | Assets/AsteroidSplitter.cs:69-100 | copying a whole triangle appends its three corner positions, in order, to what the side's triangle list resolves to |
| Partition.RecordDropped | Assets/AsteroidSplitter.cs:113-152 | recording a dropped triangle appends exactly its corners on the side, in order, to what the side's non-manifold list resolves to |
| Partition.TakeTriangle | Assets/AsteroidSplitter.cs:65-153 | one pass of the loop body changes at most one side; each side's triangle list grows by the triangle's whole-on-that-side corners (three or none) and its non-manifold list by that side's edge (two ends or none) |
| Partition.TakeTriangleTracks | Assets/AsteroidSplitter.cs:65-153 | one pass of the loop body adds to each side exactly that side's share of the triangle and nothing to the other |
| Partition.TakeTriangleAccounts | Assets/AsteroidSplitter.cs:59-153 | one pass of the loop body keeps both sides in step with the reference description |
| Partition.PartitionLoop | Assets/AsteroidSplitter.cs:57-154 | after the loop, each side's triangle and non-manifold lists resolve exactly to its copied and boundary corners; the counter equals the list length; every index is in range; no position is repeated; every vertex is used |
| Partition.PartitionShape | Assets/AsteroidSplitter.cs:57-154 | each side's triangle list has length a multiple of 3 and its non-manifold list even length; its vertices are exactly the positions reaching it, each once |
| Partition.PartitionSides | Assets/AsteroidSplitter.cs:62-69 | every vertex the partition gives the left side has `GetSide` true, and every right one has it false |
| HoleFill.FanCentre | Assets/AsteroidSplitter.cs:168-174 | the fan centre is the mean of the recorded edge-end positions, counted with multiplicity |
| HoleFill.ChosenWindingFacesAlong | Assets/AsteroidSplitter.cs:184-196 | keeping the recorded order, or swapping it when the face points against the view direction, yields a face whose normal has no component against the view direction |
| HoleFill.FanStep | Assets/AsteroidSplitter.cs:182-197 | appending the triangle for the next edge keeps every earlier fan triangle and adds one that joins the centre to that edge, facing along the view direction, in recorded order whenever that order already faces along it |
| HoleFill.FillHole | Assets/AsteroidSplitter.cs:164-197 | no edges: the side is unchanged; otherwise exactly one vertex, the mean, is appended, the counter grows by one, the earlier triangles are kept, and pair `k` becomes triangle `k` after them, facing along the view direction: as (centre, e[2k], e[2k+1]) whenever that order faces along it (an edge-on face included), and otherwise as (centre, e[2k+1], e[2k]) |
| Recentering.Recenter | Assets/AsteroidSplitter.cs:244-254 | each shifted vertex plus the offset is the original vertex; the shifted vertices sum to zero; the offset is the mean of a non-empty list |
| Vectors.SumShift | Assets/AsteroidSplitter.cs:253-254 | shifting every position by `m` shifts their sum by `m` once per position |
| Vectors.CentredSumIsZero | Assets/AsteroidSplitter.cs:244-254 | positions moved onto their own mean sum to zero |
| Vectors.SwapFlipsWinding | Assets/AsteroidSplitter.cs:189-196 | exchanging the two edges of a face negates the winding test |
| Splitter.OffsetIsCentroid | Assets/AsteroidSplitter.cs:244-267 | a fragment whose vertices sum to zero was moved by the centroid of its restored vertices, so the offset handed on is that centroid |
| Splitter.FacesAlongTranslated | Assets/AsteroidSplitter.cs:253-254 | recentring a face does not change which way it faces |
| Splitter.ViewDir | Assets/AsteroidSplitter.cs:185 | for a non-zero normal, the left half's view direction points against the normal and the right half's along it, so each looks out of its own half through the cut |
| Splitter.Push | Assets/AsteroidSplitter.cs:280 | for a non-zero normal, the left half's push points along the normal and the right half's against it, each away from the other half |
| Splitter.BuiltFanPairs | Assets/AsteroidSplitter.cs:182-197 | each fan triangle of a built half joins the fan centre to one boundary pair at its original positions, faces along the view direction after recentring, and keeps the pair's recorded order whenever that order faces along it |
| Splitter.Finish | Assets/AsteroidSplitter.cs:164-273 | fill, recentre and gate one side: a fragment exists exactly when the side's vertex count, including any fan centre, is at least 4, and it is the filled side moved onto its centroid with the given push; each fan triangle faces along the view direction and keeps its edge's recorded order whenever that order already does |
| Splitter.CopiedIndexPinned | Assets/AsteroidSplitter.cs:73-97 | in an emitted half, each copied corner uses the only non-fan vertex at its position, as the partition's `IndexOf` lookup does, even when the fan centre repeats that position |
| Splitter.HalvesKeepTriangleCount | Assets/AsteroidSplitter.cs:182-237 | when both halves are emitted, their triangle counts add up to the input triangle count |
| Splitter.SideIsHalf | Assets/AsteroidSplitter.cs:299 | a gated, filled, recentred partition side is that side's half as described by `IsHalf` |
| Splitter.Cut | Assets/AsteroidSplitter.cs:16-324 | fails exactly on a mesh with a partial triangle or an out-of-range index. Otherwise each half is present exactly when its distinct positions plus its fan centre number at least 4. A present half's restored vertices all lie on its side; its first triangles rebuild its copied corners; its non-fan vertices are distinct and are exactly the positions of its copied and boundary corners; when it has boundary corners, its last vertex is their mean; copied triangles and the two edge corners of every fan triangle index only non-fan vertices, so every index is fixed even when the centre repeats an existing position; the offset is the centroid of its restored vertices; each boundary pair becomes one fan triangle that faces out of the half through the cut (along `-normal` on the left, `+normal` on the right), in the pair's recorded order whenever that order already does; its vertices sum to zero; its push is ±0.5·normal, away from the other half. When both halves are emitted, their triangle counts add up to the input's |

## Left out

- Unity object plumbing (Assets/AsteroidSplitter.cs:14, 275-295, 301-320): instantiation, prefab loading, mesh setters, bounds and normals recalculation, naming and `randomizeOnLoad` are engine calls without visible source. The model returns the data those calls receive.
- World transforms and velocities (Assets/AsteroidSplitter.cs:276-280, 302-306): `TransformDirection`, the parent's position and velocity are not modelled. A fragment records its offset and its push (±0.5·normal) in the parent's local frame.
- Floating point: `Vector3` arithmetic is exact real arithmetic here. The source's dedup compares with exact `Equals`, so exact equality on reals matches it, but rounding in means and differences is not modelled.
- Recentering.Recenter: for an empty side the source divides by zero and gets a NaN offset. The model returns the zero vector. The gate always rejects an empty side, so this is never observed.
- Splitter.Cut: does not claim the fan centre differs from the other vertices. The source appends it without `IndexOf`, so it may repeat an existing position. Distinctness is stated for the partition's vertices only; the triangle indices are still pinned, because only the fan apex may index the centre.
- Splitter.Cut: an invalid mesh is reported up front as `IndexOutOfRange`. The source would throw at its first out-of-range read, partway through the loop. No partial result is visible in either case.
- Assets/WandController.cs, Assets/AsteroidController.cs, Assets/projectileController.cs and Assets/AsteroidSpawner.cs are not part of this model. They deal with input, randomness, timers and engine lifecycle.
