# Voxel world, greedy mesher, entity registry and input state — a Dafny model

This project models the gameplay core of a small C++ game engine:

- **Blocks, chunk arithmetic** (`blocks.dfy`, `chunk_math.dfy`). The block types and their
  byte codes. The chunk dimensions (16 x 64 x 16). The C++ truncating `/` and `%` are
  written out, and on them the engine's `FloorDiv` / `PositiveMod` pair. The flat cell
  index and the 32-bit wrapping column hash.
- **World view** (`world_view.dfy`). The world's contents as a value: a map from chunk
  coordinate to the chunk's cells, read and written in world coordinates. It also holds
  the generation rules, stated as predicates:
  - each terrain column is Sand or Grass on top, two Dirt cells, then Stone;
  - a tree is a four-cell trunk and a diamond canopy of Leaves grown only into Air.
- **Voxel world** (`voxel_world.dfy`). The `VoxelWorld` class: a map of chunk buffers
  (`array`), the radius, the seed and the revision counter. Every method is proved
  against the world view:
  - block reads and writes (a write bumps the revision only when the cell changes);
  - on-demand chunk creation;
  - world generation (in every column of the generated square the terrain and the
    trunk are exactly as the rules say, and above them every cell is Air or Leaves;
    where a canopy's Leaves land is not pinned down);
  - the surface scan and the ray query.
- **Greedy mesher** (`mesher.dfy`). For each axis and slice the mesher builds a face mask
  in an `array2`, then merges it greedily into rectangles. Each rectangle becomes four
  vertices and six indices, with the winding mirrored for back faces. Proved:
  - every emitted quad lies in the chunk and shows the mask over its whole rectangle;
  - every quad starts at the first untaken face cell in row-major scan order and is as wide and then as tall as the greedy growth allows; the quads come plane by plane in sweep order and within a plane in the scan order of their corners;
  - every visible face is covered by exactly one quad;
  - the index buffer points into the vertex buffer;
  - the bounds are the vertices' minimum and maximum.
- **Entity registry** (`ecs.dfy`). The `Registry` class: the id counter, the entity
  list, the alive set and one component store per component type. Each operation is
  proved against a value-level effect function (`AfterCreate`, `AfterDestroy`,
  `AfterAdd`, `AfterRemove`). Each effect function keeps the registry invariant:
  - entities are listed once, in creation order;
  - only live entities hold components;
  - each store holds its own type only.
- **Scene world** (`scene.dfy`). The facade that creates named entities with a default
  transform and hands out entity handles bound to the world.
- **Input state** (`input.dfy`). Current and previous key arrays and the press/release
  edges derived from them.

The raw terrain height field (sines and cosines of the column coordinates, truncated to
an integer) is a parameter of the world. The clamp of that height to [2, 62] is modelled. The ray march samples cells along a float ray. Here the ray query
receives the sequence of sampled cells and reports the first solid one.

## Model

| member | source | states |
|---|---|---|
| Blocks.ToByte | src/Game/Minecraft/VoxelWorld.h:13-22 | the byte code of a block type is at most 6, and it is 0 exactly for Air |
| Blocks.FromByte | src/Game/Minecraft/VoxelWorld.cpp:77 | a stored byte decodes to a block type exactly when it is at most 6 |
| Blocks.ByteRoundTrip | src/Game/Minecraft/VoxelWorld.cpp:94-101 | decoding the byte a block is stored as gives that block back |
| Blocks.ToByteInjective | src/Game/Minecraft/VoxelWorld.h:13-22 | distinct block types have distinct byte codes |
| Blocks.IsSolid | src/Game/Minecraft/VoxelWorld.cpp:14-17 | a block is solid exactly when its storage byte is non-zero, that is when it is not Air |
| Blocks.ChunkVolumeIsProduct | src/Game/Minecraft/VoxelWorld.cpp:298 | a chunk buffer has 16 * 64 * 16 cells |
| ChunkMath.FloorDiv | src/Game/Minecraft/VoxelWorld.cpp:241-250 | for a positive divisor, the truncating quotient corrected by one when the remainder is negative is the floor quotient |
| ChunkMath.PositiveMod | src/Game/Minecraft/VoxelWorld.cpp:252-256 | for a positive divisor, the truncating remainder shifted up by the divisor when negative is the non-negative remainder |
| ChunkMath.TruncatedToFloor | src/Game/Minecraft/VoxelWorld.cpp:241-256 | C++ `/` and `%` by a positive divisor agree with floor division when the remainder is not negative, and are one step off when it is |
| ChunkMath.FloorDivPositiveMod | src/Game/Minecraft/VoxelWorld.cpp:241-256 | for a positive divisor, FloorDiv and PositiveMod built on truncating division are floor division and the non-negative remainder, and they decompose every value, negative ones included |
| ChunkMath.MinusOneMapsToLastCellOfPreviousChunk | src/Game/Minecraft/VoxelWorld.cpp:241-256 | world x = -1 lies in chunk -1 at local 15 |
| ChunkMath.IndexInverse | src/Game/Minecraft/VoxelWorld.cpp:258-261 | the flat index of an in-chunk cell is in range, and the cell's local x, z and height can be read back from it |
| ChunkMath.IndexInjective | src/Game/Minecraft/VoxelWorld.cpp:258-261 | two in-chunk cells share a flat index exactly when they are the same cell |
| ChunkMath.Index | src/Game/Minecraft/VoxelWorld.cpp:258-261 | every in-chunk cell has a flat index inside the chunk buffer |
| ChunkMath.U32 | src/Game/Minecraft/VoxelWorld.cpp:266-267 | the unsigned cast of a 32-bit signed int is its two's-complement bit pattern |
| ChunkMath.Hash2D | src/Game/Minecraft/VoxelWorld.cpp:263-274 | for 32-bit signed arguments, the hash is the mixing function applied to their two's-complement bit patterns |
| ChunkMath.Hash2DWraps | src/Game/Minecraft/VoxelWorld.cpp:263-274 | the column hash sees its inputs only modulo 2^32 (the unsigned casts wrap) |
| WorldView.AddressBySourceOperators | src/Game/Minecraft/VoxelWorld.cpp:67-77 | the chunk and slot the source computes with FloorDiv / PositiveMod / Index are the model's chunk and slot of the world cell |
| WorldView.AddressInjective | src/Game/Minecraft/VoxelWorld.cpp:67-77 | two in-height world cells with the same chunk and slot are the same cell |
| WorldView.MaterialiseKeepsBlocks | src/Game/Minecraft/VoxelWorld.cpp:288-302 | creating an all-Air chunk adds its key and changes no block read |
| WorldView.StoreLookup | src/Game/Minecraft/VoxelWorld.cpp:80-104 | after a write, the written cell reads the new block and every other cell reads what it did before; the written cell's chunk exists afterwards |
| WorldView.StoreSameBlock | src/Game/Minecraft/VoxelWorld.cpp:96-99 | writing the block a cell already holds changes no read |
| WorldView.TerrainSolidUpToSurface | src/Game/Minecraft/VoxelWorld.cpp:314-334 | a terrain cell is solid exactly up to the surface; the surface is Sand exactly below height 8; two Dirt cells under the surface, Stone below |
| WorldView.TrunkStep | src/Game/Minecraft/VoxelWorld.cpp:339-347 | one trunk step keeps "Wood at heights surface+1..surface+n below the top, all else unchanged" |
| WorldView.CanopyStep | src/Game/Minecraft/VoxelWorld.cpp:349-373 | one canopy step keeps "Leaves on every visited canopy cell that was Air, all else unchanged", in the z, x, y visiting order |
| WorldView.TreeComplete | src/Game/Minecraft/VoxelWorld.cpp:336-374 | trunk then full canopy is exactly the tree rule's effect |
| WorldView.LeavesKeepSettled | src/Game/Minecraft/VoxelWorld.cpp:366-370 | leaves grown only into Air keep a finished column finished |
| WorldView.TreeSettlesColumn | src/Game/Minecraft/VoxelWorld.cpp:336-374 | the tree rule on a freshly filled column leaves it finished: terrain below, trunk above the surface |
| WorldView.TreeOnlyGrowsLeavesElsewhere | src/Game/Minecraft/VoxelWorld.cpp:349-373 | a tree changes other columns only by turning Air into Leaves |
| WorldView.FillColumnLookup | src/Game/Minecraft/VoxelWorld.cpp:314-334 | after the fill loop the column reads the terrain rule at every height, and other cells are unchanged |
| WorldView.GenerateColumnEffect | src/Game/Minecraft/VoxelWorld.cpp:310-374 | one column of generation (fill, then the tree if its gate opens) leaves it finished and only grows leaves elsewhere |
| WorldView.ColumnInChunk | src/Game/Minecraft/VoxelWorld.cpp:310-311 | local column (lx, lz) of a chunk is the world column whose chunk is that chunk and whose local coordinates are (lx, lz) |
| WorldView.ChunkRangeIsWorldRange | src/Game/Minecraft/VoxelWorld.cpp:214-232 | a world coordinate lies in chunks -r..r exactly when it lies in [-16r, 16(r+1) - 1] |
| Voxels.TerrainHeight | src/Game/Minecraft/VoxelWorld.cpp:389-391 | the surface height lies in [2, 62] and is the height in that range nearest to the raw height |
| Voxels.SettledColumnIsGenerated | src/Game/Minecraft/VoxelWorld.cpp:310-374 | a column finished with the generator's surface and tree gate is generated |
| Voxels.ChunkColumnStep | src/Game/Minecraft/VoxelWorld.cpp:306-376 | the chunk loop's invariant: the columns done so far stay generated, and other chunks only gain leaves |
| Voxels.SquareStep | src/Game/Minecraft/VoxelWorld.cpp:48-55 | the generation loop's invariant: every chunk of the square before the current one exists and is generated |
| Voxels.SquareCoversWorld | src/Game/Minecraft/VoxelWorld.cpp:42-58 | after the loops, every chunk of the square exists and every world column inside the world bounds is generated |
| Voxels.HitNormal | src/Game/Minecraft/VoxelWorld.cpp:156-169 | the hit normal is non-zero with every axis in [-1, 1]; each axis has the sign of (previous cell - hit cell); it points up when the two cells coincide |
| Voxels.FaceNeighbourNormal | src/Game/Minecraft/VoxelWorld.cpp:156-169 | when the ray enters the hit cell across one face, the normal is that face's direction |
| Voxels.WriteColumn | src/Game/Minecraft/VoxelWorld.cpp:314-334 | the fill loop leaves the chunk buffer equal to the column-fill function of its old contents |
| Voxels.VoxelWorld.constructor | src/Game/Minecraft/VoxelWorld.h:97-100 | a new world has radius 0, seed 1337, revision 0 and no chunks |
| Voxels.VoxelWorld.GetBlock | src/Game/Minecraft/VoxelWorld.cpp:60-78 | the block read is the world view's block at the cell; Air out of the height range or in a missing chunk |
| Voxels.VoxelWorld.LoadedChunkCount | src/Game/Minecraft/VoxelWorld.cpp:183-186 | the number of chunks in the world view |
| Voxels.VoxelWorld.ChunkCoordinates | src/Game/Minecraft/VoxelWorld.cpp:188-197 | exactly the materialised chunk keys; every cell outside them reads Air |
| Voxels.VoxelWorld.MinWorldX | src/Game/Minecraft/VoxelWorld.cpp:214-217 | the first cell of chunk column -radius |
| Voxels.VoxelWorld.MaxWorldX | src/Game/Minecraft/VoxelWorld.cpp:219-222 | the last cell of chunk column radius |
| Voxels.VoxelWorld.MinWorldZ | src/Game/Minecraft/VoxelWorld.cpp:224-227 | the first cell of chunk row -radius |
| Voxels.VoxelWorld.MaxWorldZ | src/Game/Minecraft/VoxelWorld.cpp:229-232 | the last cell of chunk row radius |
| Voxels.VoxelWorld.EnsureChunk | src/Game/Minecraft/VoxelWorld.cpp:288-302 | returns the chunk's buffer, creating it all-Air when missing; existing chunks keep their buffers; no block read changes |
| Voxels.VoxelWorld.SetBlock | src/Game/Minecraft/VoxelWorld.cpp:80-104 | out of the height range nothing changes and the result is false; otherwise the view becomes the write of the block and the result says whether the cell differed; the revision goes up exactly when it did |
| Voxels.VoxelWorld.Generate | src/Game/Minecraft/VoxelWorld.cpp:42-58 | radius max(1, r) and the new seed; all chunks fresh; every chunk of the square exists and none lies more than one chunk outside it; every column within the world bounds is generated; the revision goes up |
| Voxels.VoxelWorld.GenerateSquare | src/Game/Minecraft/VoxelWorld.cpp:48-56 | the two generation loops over the square, z-major: all its chunks exist and all its columns are generated |
| Voxels.VoxelWorld.GenerateChunk | src/Game/Minecraft/VoxelWorld.cpp:304-377 | every column of the chunk is generated; other chunks only gain leaves, and new chunks are neighbours |
| Voxels.VoxelWorld.GenerateColumn | src/Game/Minecraft/VoxelWorld.cpp:310-374 | the column is generated; other columns only gain leaves |
| Voxels.VoxelWorld.GrowColumnTree | src/Game/Minecraft/VoxelWorld.cpp:336-374 | a tree grows exactly when the column is above height 10 and its salted hash is a multiple of 97; afterwards the column is generated |
| Voxels.VoxelWorld.FillChunkColumn | src/Game/Minecraft/VoxelWorld.cpp:314-334 | the view becomes the column fill of the chunk's cells; the revision is untouched |
| Voxels.VoxelWorld.PlaceTree | src/Game/Minecraft/VoxelWorld.cpp:339-373 | the view afterwards is the tree rule applied to the view before |
| Voxels.VoxelWorld.PlaceTrunk | src/Game/Minecraft/VoxelWorld.cpp:339-347 | Wood at heights surface+1..surface+4 below the world top, nothing else changed |
| Voxels.VoxelWorld.PlaceCanopy | src/Game/Minecraft/VoxelWorld.cpp:349-373 | Leaves on every canopy cell below the top that was Air, nothing else changed |
| Voxels.VoxelWorld.WriteLeaf | src/Game/Minecraft/VoxelWorld.cpp:355-370 | a leaf is written exactly when the offset is in the diamond, below the top and the cell is Air; otherwise nothing changes |
| Voxels.VoxelWorld.SurfaceHeight | src/Game/Minecraft/VoxelWorld.cpp:106-116 | the highest solid cell of the column, with nothing solid above it; 0 when the column is all Air |
| Voxels.VoxelWorld.Raycast | src/Game/Minecraft/VoxelWorld.cpp:118-181 | a degenerate ray misses; a hit is the first solid sampled cell, with its block, step and the normal from the cell sampled before it; a miss means every sample is Air and the hit record is the default one |
| Mesher.BlockColor | src/Game/Minecraft/VoxelMesher.cpp:29-49 | a 32-bit colour, zero exactly for Air and opaque (alpha 0xff) for every solid block |
| Mesher.CodeColor | src/Game/Minecraft/VoxelMesher.cpp:29-49 | a byte code has a non-zero colour exactly when it names a solid block; codes outside the enumeration take the default branch |
| Mesher.PointOnAxes | src/Game/Minecraft/VoxelMesher.cpp:66-73 | the point built from slice s and plane coordinates (i, j) has s on axis d, i on axis u and j on axis v |
| Mesher.MaskAt | src/Game/Minecraft/VoxelMesher.cpp:84-104 | a face exists exactly when one side is solid and the other not, and the solid side is inside the chunk; its block is the solid side's and the normal says which side |
| Mesher.PlaneMask | src/Game/Minecraft/VoxelMesher.cpp:77-106 | the mask of a slice has the plane's shape and holds the face rule at every cell |
| Mesher.WindingsAreMirrored | src/Game/Minecraft/VoxelMesher.cpp:178-195 | both windings index the quad's four vertices, and each back-face triangle is the front-face triangle reversed |
| Mesher.MeshSizes | src/Game/Minecraft/VoxelMesher.cpp:164-195 | four vertices and six indices per quad |
| Mesher.VertexSliceAt | src/Game/Minecraft/VoxelMesher.cpp:164-176 | quad k's vertices occupy slots 4k..4k+3 of the vertex buffer |
| Mesher.IndexSliceAt | src/Game/Minecraft/VoxelMesher.cpp:162-195 | quad k's indices occupy slots 6k..6k+5 and use base index 4k |
| Mesher.MeshIndicesInRange | src/Game/Minecraft/VoxelMesher.cpp:162-195 | every index points into the vertex buffer |
| Mesher.MeshVerticesInBox | src/Game/Minecraft/VoxelMesher.cpp:148-176 | every vertex of in-chunk solid quads lies in the chunk's box and has a non-zero colour |
| Mesher.CoveringQuad | src/Game/Minecraft/VoxelMesher.cpp:111-207 | a covered cell has a quad on its plane whose rectangle contains it |
| Mesher.CoversKept | src/Game/Minecraft/VoxelMesher.cpp:111-207 | quads added on other planes do not change a plane's coverage |
| Mesher.MergeStep | src/Game/Minecraft/VoxelMesher.cpp:111-206 | emitting a quad of equal cells from the scan position, whose width stopped at a differing cell or the edge and whose height stopped at a breaking row or the edge, then clearing its rectangle, keeps the merge invariant: cleared cells covered once and showing the mask, others uncovered, and every quad greedy against the quads emitted before it, including that every face cell before its corner in row-major scan order was already taken |
| Mesher.MergeDone | src/Game/Minecraft/VoxelMesher.cpp:111-208 | after the merge the mask is empty and every face cell of the plane is covered by exactly one quad that shows it, every other cell by none, and every quad is greedy and starts at the first face cell, in row-major scan order, that no earlier quad took |
| Mesher.GreedyKept | src/Game/Minecraft/VoxelMesher.cpp:123-146 | whether a quad is greedy depends only on the quads emitted before it, so later quads do not change it |
| Mesher.SweepStep | src/Game/Minecraft/VoxelMesher.cpp:77-209 | meshing one more slice extends "every slice so far is meshed" |
| Mesher.SweepComplete | src/Game/Minecraft/VoxelMesher.cpp:66-210 | after all three axes: every quad is in the chunk, solid and non-empty, shows the face mask over its rectangle and is greedy on its plane; the quads come plane by plane in sweep order (axis x, y, z, layers upward), and within a plane in the row-major scan order of their corners; every face of every slice is covered exactly once |
| Mesher.QuadOfSweep | src/Game/Minecraft/VoxelMesher.cpp:111-207 | each quad of a full sweep is in the chunk, solid, at least 1 x 1, and shows the mask over its rectangle |
| Mesher.PlaneOfQuad | src/Game/Minecraft/VoxelMesher.cpp:111-146 | every quad of a full sweep lies on a valid plane, fits inside that plane's mask with the mask's cell, and is greedy in it |
| Mesher.GreedyOfSweep | src/Game/Minecraft/VoxelMesher.cpp:111-146 | each quad of a full sweep is greedy: every face cell before its corner in scan order was taken by an earlier quad of its plane, and the cell right of its first row, and some cell of the row below it, is a different mask cell, a cell taken by an earlier quad of its plane, or beyond the plane's edge |
| Mesher.CornersInScanOrder | src/Game/Minecraft/VoxelMesher.cpp:111-121 | of two quads of a meshed plane, the earlier one's corner comes strictly first in the row-major scan |
| Mesher.CoveredTwice | src/Game/Minecraft/VoxelMesher.cpp:111-207 | a cell under two different quads of a plane is counted as covered at least twice |
| Mesher.CoveredByQuad | src/Game/Minecraft/VoxelMesher.cpp:111-207 | a cell under a quad of a plane is counted as covered |
| Mesher.BuildMask | src/Game/Minecraft/VoxelMesher.cpp:77-106 | the mask array holds the face rule at every cell of the slice |
| Mesher.BuildMaskRow | src/Game/Minecraft/VoxelMesher.cpp:82-105 | one mask row holds the face rule; other rows unchanged |
| Mesher.SampleMask | src/Game/Minecraft/VoxelMesher.cpp:61-64 | the two world reads of a cell pair give the face rule of the world view |
| Mesher.GrowWidth | src/Game/Minecraft/VoxelMesher.cpp:123-127 | the widest run of equal cells from (i, j) along the row: all equal, and the next one differs or is the edge |
| Mesher.GrowHeight | src/Game/Minecraft/VoxelMesher.cpp:129-146 | the tallest stack of full equal rows: the rectangle is all equal, and the next row breaks or is the edge |
| Mesher.GrowRect | src/Game/Minecraft/VoxelMesher.cpp:123-146 | the grown rectangle is all equal to the seed cell on the mask's grid; the cell right of its first row differs or is past the edge, and so does some cell of the row below it |
| Mesher.ClearRect | src/Game/Minecraft/VoxelMesher.cpp:197-203 | exactly the rectangle's cells become empty |
| Mesher.EmitQuad | src/Game/Minecraft/VoxelMesher.cpp:148-195 | appends the quad's four vertices and its six indices based at the old vertex count |
| Mesher.MergeCell | src/Game/Minecraft/VoxelMesher.cpp:115-206 | one step of the greedy loop: an empty cell is skipped; the merge invariant and the buffers equal to the mesh of the quads are kept |
| Mesher.TakeRect | src/Game/Minecraft/VoxelMesher.cpp:123-206 | the grown rectangle holds only the scanned cell, its width and height stop at a differing cell or the edge, its quad is appended to the buffers, and exactly its cells are zeroed |
| Mesher.MergeRect | src/Game/Minecraft/VoxelMesher.cpp:123-206 | a face cell starts exactly one new quad on the plane, grown greedily, emitted and cleared; the merge invariant and the buffers equal to the mesh of the quads are kept |
| Mesher.MergeRow | src/Game/Minecraft/VoxelMesher.cpp:113-207 | one row of the greedy loop keeps the merge invariant |
| Mesher.MergePlane | src/Game/Minecraft/VoxelMesher.cpp:111-208 | the greedy loops mesh the plane and leave the mask empty: each face cell covered by exactly one new quad, each quad fitting the mask, starting at the first untaken face cell in row-major scan order and grown as wide and then as tall as equal untaken cells allow |
| Mesher.MeshPlane | src/Game/Minecraft/VoxelMesher.cpp:108-208 | one slice meshed, the sweep invariant kept |
| Mesher.MeshAxis | src/Game/Minecraft/VoxelMesher.cpp:66-209 | all slices of one axis meshed, the sweep invariant kept |
| Mesher.SweepChunk | src/Game/Minecraft/VoxelMesher.cpp:66-210 | the three axes swept, the buffers equal to the mesh of the quads |
| Mesher.ComputeBounds | src/Game/Minecraft/VoxelMesher.cpp:212-236 | with no vertices, the chunk's full box; otherwise the componentwise minimum and maximum, each attained by some vertex |
| Mesher.BuildChunkMesh | src/Game/Minecraft/VoxelMesher.cpp:51-237 | the buffers are the mesh of a list of quads that are in the chunk, solid and non-empty, and show the face mask; every face is covered exactly once; each quad starts at the first face cell, in row-major scan order, that no earlier quad of its plane took, and is as wide as the run of equal, not yet merged cells from its corner allows, then as tall as full rows of them allow; the quads come plane by plane in sweep order (axis x, y, z, layers upward), and within a plane in the scan order of their corners; the indices are in range, the vertices are in the box with solid colours, and the bounds are exact |
| Ecs.Without | src/Engine/ECS/Registry.h:36 | the erase-remove idiom drops exactly the id and keeps the rest |
| Ecs.Visit | src/Engine/ECS/Registry.h:116-122 | the entities visited are exactly the listed ones with every requested component |
| Ecs.EmptyIsConsistent | src/Engine/ECS/Registry.h:201-204 | the empty registry meets the invariant |
| Ecs.CreateKeepsConsistent | src/Engine/ECS/Registry.h:21-27 | a new id is valid and not alive, and creating it keeps the invariant |
| Ecs.WithoutIncreasing | src/Engine/ECS/Registry.h:36 | removing an id keeps the list in creation order |
| Ecs.DestroyKeepsConsistent | src/Engine/ECS/Registry.h:29-41 | destroying keeps the invariant; afterwards the id is gone from the list, the alive set and every store; everything else is unchanged; destroying a dead id changes nothing |
| Ecs.AddKeepsConsistent | src/Engine/ECS/Registry.h:58-69 | adding keeps the invariant and sets exactly that entity's component; nothing changes for a dead entity |
| Ecs.RemoveKeepsConsistent | src/Engine/ECS/Registry.h:71-75 | removing keeps the invariant and removes exactly that entity's component |
| Ecs.DistinctCount | src/Engine/ECS/Registry.h:48-51 | a duplicate-free list has as many elements as its set |
| Ecs.CountIsAlive | src/Engine/ECS/Registry.h:48-51 | the entity list is exactly as long as the alive set |
| Ecs.VisitIncreasing | src/Engine/ECS/Registry.h:116-122 | visiting goes in creation order |
| Ecs.Registry.constructor | src/Engine/ECS/Registry.h:201-204 | an empty registry whose next id is 1 |
| Ecs.Registry.CreateEntity | src/Engine/ECS/Registry.h:21-27 | returns the next id, never the invalid id 0, not alive before; it is appended and marked alive |
| Ecs.Registry.DestroyEntity | src/Engine/ECS/Registry.h:29-41 | the new state is the destroy effect of the old one |
| Ecs.Registry.RemoveAll | src/Engine/ECS/Registry.h:36 | the loop keeps exactly the ids other than the removed one, in order |
| Ecs.Registry.IsAlive | src/Engine/ECS/Registry.h:43-46 | alive exactly when listed; a live id is non-zero and below the next id |
| Ecs.Registry.EntityCount | src/Engine/ECS/Registry.h:48-51 | the number of live entities |
| Ecs.Registry.Entities | src/Engine/ECS/Registry.h:53-56 | the live entities, each once, in creation order |
| Ecs.Registry.AddComponent | src/Engine/ECS/Registry.h:58-69 | fails with "Entity is not alive." exactly for a dead entity; otherwise the entity has the component afterwards; the new state is the add effect |
| Ecs.Registry.RemoveComponent | src/Engine/ECS/Registry.h:71-75 | the entity lacks the component afterwards; the new state is the remove effect |
| Ecs.Registry.HasComponent | src/Engine/ECS/Registry.h:77-82 | true exactly when the type's store exists and holds the entity; then the entity is alive |
| Ecs.Registry.GetComponentConst | src/Engine/ECS/Registry.h:96-111 | the entity's component of that type when present; "Component store is missing." without a store, "Component is missing on entity." without the entry |
| Ecs.Registry.GetComponent | src/Engine/ECS/Registry.h:84-94 | creates the type's store if missing and changes nothing else; the component when present, otherwise "Component is missing on entity." |
| Ecs.Registry.ForEach | src/Engine/ECS/Registry.h:113-135 | visits exactly the live entities holding every requested component, in creation order |
| Scene.IsValid | src/Engine/Scene/Entity.cpp:14-17 | a handle bound to no world is invalid; one bound to a world is valid exactly when its id is listed in that world's registry |
| Scene.CreateNamedEffect | src/Engine/Scene/World.cpp:5-11 | creating a named entity keeps the registry invariant; it lists one fresh id, gives it exactly a name and a default transform, and leaves every other entity's components as they were |
| Scene.World.CreateEntity | src/Engine/Scene/World.cpp:5-11 | the handle is valid and bound to this world; the entity's name is the given one, its transform the default, and it has no other component |
| Scene.World.DestroyEntity | src/Engine/Scene/World.cpp:13-19 | when the handle is valid in the world it is bound to, the handle's id is destroyed in this world's registry (for a handle bound to this world, its entity is then dead); an invalid handle changes nothing |
| Scene.World.Entities | src/Engine/Scene/World.cpp:21-41 | one valid handle bound to this world per registry entity, in registry order |
| Scene.World.FindEntity | src/Engine/Scene/World.cpp:43-51 | a handle to the id bound to this world when the id is alive, otherwise the default handle |
| Scene.FindEntityIsValid | src/Engine/Scene/Entity.cpp:14-17 | FindEntity's handle is valid exactly when the id is alive, and then it names the id |
| Scene.World.EntityCount | src/Engine/Scene/World.cpp:53-56 | the number of live entities in the registry |
| Input.ToIndex | src/Engine/Input/InputState.h:37-40 | every key has a slot below the key count |
| Input.ToIndexInjective | src/Engine/Input/InputState.h:9-21 | no two keys share a slot |
| Input.InputState.constructor | src/Engine/Input/InputState.h:42-43 | every key starts up in both frames |
| Input.InputState.BeginFrame | src/Engine/Input/InputState.cpp:5-8 | the previous frame becomes a copy of the current one, so no key has an edge |
| Input.InputState.Reset | src/Engine/Input/InputState.cpp:10-14 | every key up in both frames: nothing down, pressed or released |
| Input.InputState.SetKey | src/Engine/Input/InputState.cpp:16-19 | only the key's current state changes, to the given one |
| Input.InputState.IsDown | src/Engine/Input/InputState.cpp:21-24 | the key's slot of the current frame (which SetKey sets and BeginFrame copies to the previous frame) |
| Input.InputState.WasPressed | src/Engine/Input/InputState.cpp:26-30 | pressed exactly when down now and up in the previous frame |
| Input.InputState.WasReleased | src/Engine/Input/InputState.cpp:32-36 | released exactly when up now and down in the previous frame, and then not pressed |
| Input.InputState.EdgesAreChanges | src/Engine/Input/InputState.cpp:21-36 | a key has an edge exactly when its state differs between the frames; an edge is a press or a release, never both; pressed means down now and up before |

## Left out

- Integer widths: `int`, `std::uint32_t` entity ids and the 64-bit revision are unbounded integers. Only the column hash models its 32-bit wrap-around. Overflow of `m_nextId` after 2^32 - 1 entities, and of world coordinates near `INT_MAX`, is not modelled.
- Ecs.Registry.CreateEntity: does not model the 32-bit wrap of the id counter back to 0, which the source would hit after 2^32 - 1 creations.
- Terrain height: the sine/cosine/hash formula of `ComputeTerrainHeight` is floating point. It is a parameter of the world, taken as already truncated to an integer; the clamp to [2, 62] applied to it is modelled.
- Voxels.VoxelWorld.Raycast: the float ray march (normalisation, the 0.1 step, `floor` of each sample) is not modelled. The method receives the sequence of sampled cells, and the hit distance is the sample's step number instead of `t`.
- Voxels.VoxelWorld.Generate: states that the revision increases, not by how much. The trees' writes go through `SetBlock` and bump it too, by a count that depends on the terrain.
- Voxels.VoxelWorld.Generate: above the terrain and the trunk, a generated column is only stated to hold Air or Leaves; which cells the canopies of the neighbouring trees fill is not stated for the finished world (each tree's own step states it).
- Voxels.VoxelWorld.ChunkCoordinates: returns a set. The source's vector order follows the hash map's iteration order, which is unspecified.
- Generation order: chunks generated later can overwrite leaves that earlier trees spilled into them, so the final world depends on the loop order. The model proves the per-column result instead: every column holds its terrain and trunk, and at most leaves were added to Air.
- Mesher: the source stores the mask in a flat vector indexed `n = j * W + i`. The model uses a two-dimensional array with the same contents. The quads behind the buffers are a ghost result.
- Mesher.BuildChunkMesh: vertex coordinates and bounds are integers. The source converts the same integers to `float`, exactly for chunk coordinates of the sizes involved.
- Float components (`Vector3` in transforms), `RigidbodyComponent` and the component types outside the registry's core are not modelled. A transform is three integer triples with the same default values.
- Ecs.Registry.ForEach: the callback is not modelled. The method returns the entities it would be called for, in order.
- Ecs.Registry.AddComponent and Ecs.Registry.GetComponent: the source returns references through which callers write. The model returns the component value.
- The source dispatches components by C++ type (`std::type_index`, templates). The model uses one tagged component datatype and a map from component type to store.
- `KeyCode::Count` is an enumerator that the key arrays are sized with. It is not a key, and passing it would index out of range; the model's key type excludes it.
- `ToString` of block types and the getters `Revision`, `RadiusInChunks`, `Seed` and `GetRegistry` are not modelled as separate members: the first is display text, and the others are the class's fields read directly.
- The entity handle's name, transform and component accessors (`Entity.cpp` beyond `IsValid`) are not part of this model.
