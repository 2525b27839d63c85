/**
 * The chunked voxel store: a map from chunk coordinate to a chunk buffer of
 * 16 x 64 x 16 cells, the generation parameters and the revision counter.
 * Every operation is proved against the abstract view of module WorldView.
 */
module Voxels {
  import opened Blocks
  import opened ChunkMath
  import opened WorldView

  /**
   * The raw terrain height field: the source's sum of sines, cosines and the
   * hash, truncated to an integer. It is supplied here; generation clamps it.
   */
  type Terrain = (int, int, int) -> int

  /** How far height a lies from height b. */
  function Gap(a: int, b: int): nat
  {
    Abs(a - b)
  }

  /**
   * The surface height of column (x, z): the raw height clamped to
   * [2, WorldHeight - 2], the in-range height nearest to it. (Clamping the
   * float before truncating, as the source does, gives the same integer,
   * since both bounds are integers.)
   */
  function TerrainHeight(terrain: Terrain, x: int, z: int, seed: int): (h: int)
    ensures 2 <= h <= WorldHeight - 2
    ensures forall y :: 2 <= y <= WorldHeight - 2 ==> Gap(h, terrain(x, z, seed)) <= Gap(y, terrain(x, z, seed))
  {
    var raw := terrain(x, z, seed);
    if raw < 2 then 2 else if raw > WorldHeight - 2 then WorldHeight - 2 else raw
  }

  /** Column (x, z) holds what generation with this height field and seed leaves there. */
  ghost predicate ColumnGenerated(v: View, terrain: Terrain, seed: int, x: int, z: int)
    requires WellFormed(v)
  {
    var surface := TerrainHeight(terrain, x, z, seed);
    ColumnSettled(v, x, z, surface, TreeAt(x, z, seed, surface))
  }

  /** Chunk k is chunk `key` or one of its eight neighbours. */
  predicate NearChunk(k: ChunkCoord, key: ChunkCoord)
  {
    key.x - 1 <= k.x <= key.x + 1 && key.z - 1 <= k.z <= key.z + 1
  }

  /** Chunk k lies within one chunk of the chunk holding column (x, z). */
  predicate NearColumn(k: ChunkCoord, x: int, z: int)
  {
    NearChunk(k, ChunkOf(x, z))
  }

  /** A finished column whose surface and tree flag are the generator's is generated. */
  lemma SettledColumnIsGenerated(v: View, terrain: Terrain, seed: int, x: int, z: int, surface: int, tree: bool)
    requires WellFormed(v)
    requires surface == TerrainHeight(terrain, x, z, seed)
    requires tree == TreeAt(x, z, seed, surface)
    requires ColumnSettled(v, x, z, surface, tree)
    ensures ColumnGenerated(v, terrain, seed, x, z)
  {
  }

  /** Every column of chunk `key` before local position (localX, localZ), z-major then x, is generated. */
  ghost predicate ChunkGeneratedUpTo(v: View, terrain: Terrain, seed: int, key: ChunkCoord, localX: int, localZ: int)
    requires WellFormed(v)
  {
    forall x, z :: ChunkOf(x, z) == key &&
                   (z % ChunkSize < localZ || (z % ChunkSize == localZ && x % ChunkSize < localX)) ==>
      ColumnGenerated(v, terrain, seed, x, z)
  }

  /** Every column of chunk `key` is generated. */
  ghost predicate ChunkGenerated(v: View, terrain: Terrain, seed: int, key: ChunkCoord)
    requires WellFormed(v)
  {
    forall x, z :: ChunkOf(x, z) == key ==> ColumnGenerated(v, terrain, seed, x, z)
  }

  /** Outside chunk `key`, v differs from v0 only by leaves grown into Air. */
  ghost predicate LeavesOnlyOutside(v0: View, v: View, key: ChunkCoord)
    requires WellFormed(v0) && WellFormed(v)
  {
    forall x, z :: ChunkOf(x, z) != key ==> OnlyLeavesGrew(v0, v, x, z)
  }

  /**
   * One column step of the chunk loop: when column (localX, localZ) of `key`
   * has just been generated and the others only gained leaves, the columns
   * generated so far stay generated.
   */
  lemma {:induction false} ChunkColumnStep(v0: View, vA: View, vB: View, terrain: Terrain, seed: int,
                                           key: ChunkCoord, localX: int, localZ: int)
    requires WellFormed(v0) && WellFormed(vA) && WellFormed(vB)
    requires 0 <= localX < ChunkSize && 0 <= localZ < ChunkSize
    requires ChunkGeneratedUpTo(vA, terrain, seed, key, localX, localZ)
    requires LeavesOnlyOutside(v0, vA, key)
    requires ColumnGenerated(vB, terrain, seed, WorldCoord(key.x, localX), WorldCoord(key.z, localZ))
    requires OnlyLeavesGrewElsewhere(vA, vB, WorldCoord(key.x, localX), WorldCoord(key.z, localZ))
    ensures ChunkGeneratedUpTo(vB, terrain, seed, key, localX + 1, localZ)
    ensures LeavesOnlyOutside(v0, vB, key)
  {
    var wx, wz := WorldCoord(key.x, localX), WorldCoord(key.z, localZ);
    ColumnInChunk(key, localX, localZ);
    forall x, z | ChunkOf(x, z) == key &&
                  (z % ChunkSize < localZ || (z % ChunkSize == localZ && x % ChunkSize < localX + 1))
      ensures ColumnGenerated(vB, terrain, seed, x, z)
    {
      if (x, z) != (wx, wz) {
        assert ColumnGenerated(vA, terrain, seed, x, z);
        var surface := TerrainHeight(terrain, x, z, seed);
        LeavesKeepSettled(vA, vB, x, z, surface, TreeAt(x, z, seed, surface));
      }
    }
    forall x, z | ChunkOf(x, z) != key
      ensures OnlyLeavesGrew(v0, vB, x, z)
    {
      OnlyLeavesGrewTransitive(v0, vA, vB, x, z);
    }
  }

  /** The end of one local row of a chunk is the start of the next. */
  lemma ChunkRowDone(v: View, terrain: Terrain, seed: int, key: ChunkCoord, localZ: int)
    requires WellFormed(v)
    requires ChunkGeneratedUpTo(v, terrain, seed, key, ChunkSize, localZ)
    ensures ChunkGeneratedUpTo(v, terrain, seed, key, 0, localZ + 1)
  {
  }

  /** Chunk c of the square of radius r comes before chunk (cx, cz) in the z-major generation order. */
  predicate SquareBefore(c: ChunkCoord, r: int, cx: int, cz: int)
  {
    -r <= c.x <= r && -r <= c.z && (c.z < cz || (c.z == cz && c.x < cx))
  }

  /** Every chunk of the square before (cx, cz) exists and all its columns are generated. */
  ghost predicate SquareGeneratedUpTo(v: View, terrain: Terrain, seed: int, r: int, cx: int, cz: int)
    requires WellFormed(v)
  {
    (forall c :: SquareBefore(c, r, cx, cz) ==> c in v) &&
    (forall x, z :: SquareBefore(ChunkOf(x, z), r, cx, cz) ==> ColumnGenerated(v, terrain, seed, x, z))
  }

  /**
   * One chunk step of the generation loop: chunk (cx, cz) is looked up (created
   * if absent) and then generated; the chunks generated before stay so.
   */
  lemma {:induction false} SquareStep(vA: View, vB: View, vC: View, terrain: Terrain, seed: int,
                                      r: int, cx: int, cz: int)
    requires WellFormed(vA) && WellFormed(vC) && vB == Materialise(vA, ChunkCoord(cx, cz))
    requires WellFormed(vB)
    requires SquareGeneratedUpTo(vA, terrain, seed, r, cx, cz)
    requires -r <= cx <= r && -r <= cz <= r
    requires ChunkGenerated(vC, terrain, seed, ChunkCoord(cx, cz)) && LeavesOnlyOutside(vB, vC, ChunkCoord(cx, cz))
    requires vC.Keys >= vB.Keys
    ensures SquareGeneratedUpTo(vC, terrain, seed, r, cx + 1, cz)
  {
    var key := ChunkCoord(cx, cz);
    MaterialiseKeepsBlocks(vA, key, 0, 0, 0);
    forall x, z | SquareBefore(ChunkOf(x, z), r, cx + 1, cz)
      ensures ColumnGenerated(vC, terrain, seed, x, z)
    {
      if ChunkOf(x, z) != key {
        var surface := TerrainHeight(terrain, x, z, seed);
        var tree := TreeAt(x, z, seed, surface);
        assert ColumnGenerated(vA, terrain, seed, x, z);
        forall y | 0 <= y < WorldHeight
          ensures Settled(Lookup(vB, x, y, z), y, surface, tree)
        {
          MaterialiseKeepsBlocks(vA, key, x, y, z);
        }
        LeavesKeepSettled(vB, vC, x, z, surface, tree);
      }
    }
  }

  /** The end of one row of the square is the start of the next. */
  lemma SquareRowDone(v: View, terrain: Terrain, seed: int, r: int, cz: int)
    requires WellFormed(v)
    requires SquareGeneratedUpTo(v, terrain, seed, r, r + 1, cz)
    ensures SquareGeneratedUpTo(v, terrain, seed, r, -r, cz + 1)
  {
  }

  /**
   * Once every row of the square of radius r is done, its chunks all exist
   * and every world column of [-r*16, (r+1)*16 - 1]^2 is generated.
   */
  lemma SquareCoversWorld(v: View, terrain: Terrain, seed: int, r: int)
    requires WellFormed(v)
    requires SquareGeneratedUpTo(v, terrain, seed, r, -r, r + 1)
    ensures forall cx, cz :: -r <= cx <= r && -r <= cz <= r ==> ChunkCoord(cx, cz) in v
    ensures forall x, z :: -r * ChunkSize <= x <= (r + 1) * ChunkSize - 1 &&
                           -r * ChunkSize <= z <= (r + 1) * ChunkSize - 1 ==>
              ColumnGenerated(v, terrain, seed, x, z)
  {
    forall cx, cz | -r <= cx <= r && -r <= cz <= r
      ensures ChunkCoord(cx, cz) in v
    {
      assert SquareBefore(ChunkCoord(cx, cz), r, -r, r + 1);
    }
    forall x, z | -r * ChunkSize <= x <= (r + 1) * ChunkSize - 1 &&
                  -r * ChunkSize <= z <= (r + 1) * ChunkSize - 1
      ensures ColumnGenerated(v, terrain, seed, x, z)
    {
      ChunkRangeIsWorldRange(x, r);
      ChunkRangeIsWorldRange(z, r);
      assert SquareBefore(ChunkOf(x, z), r, -r, r + 1);
    }
  }

  /** The clamp of one axis of the hit normal. */
  function Clamp(n: int): int
  {
    if n < -1 then -1 else if n > 1 then 1 else n
  }

  /**
   * The face normal of a ray hit: the previous sampled cell minus the hit
   * cell, clamped to [-1, 1] per axis; straight up when the two coincide.
   */
  function HitNormal(previous: (int, int, int), cell: (int, int, int)): (n: (int, int, int))
    ensures -1 <= n.0 <= 1 && -1 <= n.1 <= 1 && -1 <= n.2 <= 1
    ensures n != (0, 0, 0)
    ensures previous == cell ==> n == (0, 1, 0)
    ensures previous != cell ==>
      (n.0 > 0 <==> previous.0 > cell.0) && (n.0 < 0 <==> previous.0 < cell.0) &&
      (n.1 > 0 <==> previous.1 > cell.1) && (n.1 < 0 <==> previous.1 < cell.1) &&
      (n.2 > 0 <==> previous.2 > cell.2) && (n.2 < 0 <==> previous.2 < cell.2)
  {
    var dx, dy, dz := previous.0 - cell.0, previous.1 - cell.1, previous.2 - cell.2;
    if dx == 0 && dy == 0 && dz == 0 then (0, 1, 0)
    else (Clamp(dx), Clamp(dy), Clamp(dz))
  }

  /** When the ray steps into the hit cell across one face, the normal is that face's direction. */
  lemma FaceNeighbourNormal(previous: (int, int, int), cell: (int, int, int))
    requires Abs(previous.0 - cell.0) + Abs(previous.1 - cell.1) + Abs(previous.2 - cell.2) == 1
    ensures HitNormal(previous, cell) ==
            (previous.0 - cell.0, previous.1 - cell.1, previous.2 - cell.2)
  {
  }

  /** The cell the ray occupied before sample k: the origin's cell before the first sample. */
  function PreviousCell(origin: (int, int, int), samples: seq<(int, int, int)>, k: nat): (int, int, int)
    requires k <= |samples|
  {
    if k == 0 then origin else samples[k - 1]
  }

  /** The fill loop of one terrain column, written straight into a chunk buffer. */
  method WriteColumn(chunk: array<BlockType>, localX: int, localZ: int, surface: int)
    requires chunk.Length == ChunkVolume
    requires 0 <= localX < ChunkSize && 0 <= localZ < ChunkSize
    modifies chunk
    ensures chunk[..] == FillColumn(old(chunk[..]), localX, localZ, surface)
  {
    for y := 0 to WorldHeight
      invariant forall i :: 0 <= i < chunk.Length ==>
        chunk[i] == if i % (ChunkSize * ChunkSize) == localZ * ChunkSize + localX && i / (ChunkSize * ChunkSize) < y
                    then TerrainBlock(i / (ChunkSize * ChunkSize), surface)
                    else old(chunk[i])
    {
      IndexInverse(localX, y, localZ);
      var block := TerrainBlock(y, surface);
      chunk[Index(localX, y, localZ)] := block;
    }
  }

  class VoxelWorld {
    const terrain: Terrain
    var radiusInChunks: int
    var seed: int
    var revision: nat
    var chunks: map<ChunkCoord, array<BlockType>>
    /** The world's contents as a value: each chunk's cells. */
    ghost var view: View

    /** Every chunk of `before` is still present with the same buffer. */
    ghost predicate KeepsChunks(before: map<ChunkCoord, array<BlockType>>)
      reads this`chunks
    {
      forall c :: c in before ==> c in chunks && chunks[c] == before[c]
    }

    /**
     * Every chunk buffer has the full size, no two chunks share a buffer, and
     * `view` holds exactly the buffers' contents.
     */
    ghost predicate Valid()
      reads this`chunks, this`view, chunks.Values
    {
      WellFormed(view) && chunks.Keys == view.Keys &&
      (forall c :: c in chunks ==> chunks[c].Length == ChunkVolume && chunks[c][..] == view[c]) &&
      (forall c1, c2 :: c1 in chunks && c2 in chunks && c1 != c2 ==> chunks[c1] != chunks[c2])
    }

    /** A fresh world: radius 0, seed 1337, revision 0 and no chunks. */
    constructor (terrain: Terrain)
      ensures Valid() && this.terrain == terrain
      ensures radiusInChunks == 0 && seed == 1337 && revision == 0 && chunks == map[] && view == map[]
    {
      this.terrain := terrain;
      radiusInChunks := 0;
      seed := 1337;
      revision := 0;
      chunks := map[];
      view := map[];
    }

    /** The block at a world cell; never changes the world. */
    function GetBlock(x: int, y: int, z: int): (b: BlockType)
      reads this, chunks.Values
      requires Valid()
      ensures b == Lookup(view, x, y, z)
      ensures (y < 0 || y >= WorldHeight) ==> b == Air
      ensures ChunkOf(x, z) !in chunks ==> b == Air
    {
      if y < 0 || y >= WorldHeight then Air
      else
        var chunkX := FloorDiv(x, ChunkSize);
        var chunkZ := FloorDiv(z, ChunkSize);
        var key := ChunkCoord(chunkX, chunkZ);
        AddressBySourceOperators(x, y, z);
        if key !in chunks then Air
        else
          var localX := PositiveMod(x, ChunkSize);
          var localZ := PositiveMod(z, ChunkSize);
          AddressBySourceOperators(x, y, z);
          LocalIndexInRange(x, y, z);
          chunks[key][Index(localX, y, localZ)]
    }

    /** The number of materialised chunks. */
    function LoadedChunkCount(): (n: nat)
      reads this, chunks.Values
      requires Valid()
      ensures n == |view|
    {
      |chunks|
    }

    /** The materialised chunk coordinates; the source lists them in hash order. */
    function ChunkCoordinates(): (cs: set<ChunkCoord>)
      reads this, chunks.Values
      requires Valid()
      ensures cs == view.Keys
      ensures forall x, y, z :: ChunkOf(x, z) !in cs ==> GetBlock(x, y, z) == Air
    {
      chunks.Keys
    }

    /** The west edge of the generated square: the first cell of chunk column -radius. */
    function MinWorldX(): (x: int)
      reads this
      ensures x / ChunkSize == -radiusInChunks && x % ChunkSize == 0
    {
      ColumnInChunk(ChunkCoord(-radiusInChunks, -radiusInChunks), 0, 0);
      WorldCoord(-radiusInChunks, 0)
    }

    /** The east edge of the generated square: the last cell of chunk column radius. */
    function MaxWorldX(): (x: int)
      reads this
      ensures x / ChunkSize == radiusInChunks && x % ChunkSize == ChunkSize - 1
    {
      ColumnInChunk(ChunkCoord(radiusInChunks, radiusInChunks), ChunkSize - 1, ChunkSize - 1);
      WorldCoord(radiusInChunks, ChunkSize - 1)
    }

    /** The north edge of the generated square: the first cell of chunk row -radius. */
    function MinWorldZ(): (z: int)
      reads this
      ensures z / ChunkSize == -radiusInChunks && z % ChunkSize == 0
    {
      ColumnInChunk(ChunkCoord(-radiusInChunks, -radiusInChunks), 0, 0);
      WorldCoord(-radiusInChunks, 0)
    }

    /** The south edge of the generated square: the last cell of chunk row radius. */
    function MaxWorldZ(): (z: int)
      reads this
      ensures z / ChunkSize == radiusInChunks && z % ChunkSize == ChunkSize - 1
    {
      ColumnInChunk(ChunkCoord(radiusInChunks, radiusInChunks), ChunkSize - 1, ChunkSize - 1);
      WorldCoord(radiusInChunks, ChunkSize - 1)
    }

    /** Finds the chunk for writing, creating it all-Air when it does not exist. */
    method EnsureChunk(chunkX: int, chunkZ: int) returns (chunk: array<BlockType>)
      requires Valid()
      modifies this
      ensures Valid()
      ensures ChunkCoord(chunkX, chunkZ) in chunks && chunk == chunks[ChunkCoord(chunkX, chunkZ)]
      ensures view == Materialise(old(view), ChunkCoord(chunkX, chunkZ))
      ensures chunks.Keys == old(chunks.Keys) + {ChunkCoord(chunkX, chunkZ)}
      ensures forall c :: c in chunks && c !in old(chunks) ==> fresh(chunks[c])
      ensures KeepsChunks(old(chunks))
      ensures revision == old(revision) && seed == old(seed) && radiusInChunks == old(radiusInChunks)
    {
      var key := ChunkCoord(chunkX, chunkZ);
      if key in chunks {
        chunk := chunks[key];
        return;
      }
      chunk := new BlockType[ChunkVolume](_ => Air);
      chunks := chunks[key := chunk];
      view := view[key := AirChunk()];
      assert chunk[..] == AirChunk();
    }

    /**
     * Writes one block. Out of the height range nothing happens; otherwise the
     * chunk is created if needed and the cell is written only when its value
     * differs, which is then the one change that bumps the revision.
     */
    method SetBlock(x: int, y: int, z: int, t: BlockType) returns (changed: bool)
      requires Valid()
      modifies this, chunks.Values
      ensures Valid()
      ensures forall c :: c in chunks && c !in old(chunks) ==> fresh(chunks[c])
      ensures KeepsChunks(old(chunks))
      ensures (y < 0 || y >= WorldHeight) ==> !changed && chunks == old(chunks) && view == old(view)
      ensures 0 <= y < WorldHeight ==> view == Store(old(view), x, y, z, t)
      ensures 0 <= y < WorldHeight ==> changed == (Lookup(old(view), x, y, z) != t)
      ensures 0 <= y < WorldHeight ==> chunks.Keys == old(chunks.Keys) + {ChunkOf(x, z)}
      ensures revision == old(revision) + (if changed then 1 else 0)
      ensures seed == old(seed) && radiusInChunks == old(radiusInChunks)
    {
      if y < 0 || y >= WorldHeight {
        return false;
      }
      changed := StoreInRange(x, y, z, t);
    }

    /** SetBlock for a cell inside the height range. */
    method StoreInRange(x: int, y: int, z: int, t: BlockType) returns (changed: bool)
      requires Valid() && 0 <= y < WorldHeight
      modifies this, chunks.Values
      ensures Valid()
      ensures forall c :: c in chunks && c !in old(chunks) ==> fresh(chunks[c])
      ensures KeepsChunks(old(chunks))
      ensures view == Store(old(view), x, y, z, t)
      ensures changed == (Lookup(old(view), x, y, z) != t)
      ensures chunks.Keys == old(chunks.Keys) + {ChunkOf(x, z)}
      ensures revision == old(revision) + (if changed then 1 else 0)
      ensures seed == old(seed) && radiusInChunks == old(radiusInChunks)
    {
      ghost var v0 := view;
      var chunkX := FloorDiv(x, ChunkSize);
      var chunkZ := FloorDiv(z, ChunkSize);
      var chunk := EnsureChunk(chunkX, chunkZ);
      var key := ChunkCoord(chunkX, chunkZ);
      var localX := PositiveMod(x, ChunkSize);
      var localZ := PositiveMod(z, ChunkSize);
      var index := Index(localX, y, localZ);
      AddressBySourceOperators(x, y, z);
      LocalIndexInRange(x, y, z);
      assert Store(v0, x, y, z, t) == view[key := view[key][index := t]] &&
             Lookup(v0, x, y, z) == view[key][index] by {
        StoreUpdatesMaterialised(v0, x, y, z, t);
      }
      changed := WriteIfDifferent(key, chunk, index, t);
    }

    /** Writes slot `index` of chunk `key` unless it already holds t; a write bumps the revision. */
    method WriteIfDifferent(key: ChunkCoord, chunk: array<BlockType>, index: int, t: BlockType)
      returns (changed: bool)
      requires Valid() && key in chunks && chunk == chunks[key] && 0 <= index < ChunkVolume
      modifies this`revision, this`view, chunk
      ensures Valid() && chunks == old(chunks)
      ensures view == old(view)[key := old(view)[key][index := t]]
      ensures changed == (old(view)[key][index] != t)
      ensures revision == old(revision) + (if changed then 1 else 0)
    {
      if chunk[index] == t {
        assert view[key][index := t] == view[key];
        return false;
      }
      WriteCell(key, chunk, index, t);
      revision := revision + 1;
      changed := true;
    }

    /** The single-cell store into chunk `key`'s buffer. */
    method WriteCell(key: ChunkCoord, chunk: array<BlockType>, index: int, t: BlockType)
      requires Valid() && key in chunks && chunk == chunks[key] && 0 <= index < ChunkVolume
      modifies this`view, chunk
      ensures Valid()
      ensures view == old(view)[key := old(view)[key][index := t]]
    {
      chunk[index] := t;
      view := view[key := view[key][index := t]];
      forall c | c in chunks
        ensures chunks[c][..] == view[c]
      {
        if c != key {
          assert chunks[c] != chunk;
        }
      }
    }

    /**
     * Regenerates the world: the radius is raised to at least 1, every chunk is
     * dropped, and the chunks of the square [-radius, radius]^2 are created and
     * generated z-major; the revision then goes up by one more. Trees near the
     * square's edge may create chunks one step outside it.
     */
    method Generate(requestedRadius: int, newSeed: int)
      requires Valid()
      modifies this
      ensures Valid()
      ensures radiusInChunks == (if requestedRadius < 1 then 1 else requestedRadius) && seed == newSeed
      ensures revision > old(revision)
      ensures forall c :: c in chunks ==> fresh(chunks[c])
      ensures forall cx, cz :: -radiusInChunks <= cx <= radiusInChunks && -radiusInChunks <= cz <= radiusInChunks ==>
                ChunkCoord(cx, cz) in chunks
      ensures forall c :: c in chunks ==> -radiusInChunks - 1 <= c.x <= radiusInChunks + 1 &&
                                          -radiusInChunks - 1 <= c.z <= radiusInChunks + 1
      ensures forall x, z :: MinWorldX() <= x <= MaxWorldX() && MinWorldZ() <= z <= MaxWorldZ() ==>
                ColumnGenerated(view, terrain, seed, x, z)
    {
      radiusInChunks := if requestedRadius < 1 then 1 else requestedRadius;
      seed := newSeed;
      chunks := map[];
      view := map[];
      GenerateSquare(radiusInChunks);
      revision := revision + 1;
    }

    /**
     * Generate's loops on an emptied world: the chunks of the square
     * [-r, r]^2, row by row (z ascending), each row x ascending.
     */
    method GenerateSquare(r: int)
      requires Valid() && r >= 1 && chunks == map[]
      modifies this
      ensures Valid()
      ensures radiusInChunks == old(radiusInChunks) && seed == old(seed) && revision >= old(revision)
      ensures forall c :: c in chunks ==> fresh(chunks[c])
      ensures forall cx, cz :: -r <= cx <= r && -r <= cz <= r ==> ChunkCoord(cx, cz) in chunks
      ensures forall c :: c in chunks ==> -r - 1 <= c.x <= r + 1 && -r - 1 <= c.z <= r + 1
      ensures forall x, z :: -r * ChunkSize <= x <= (r + 1) * ChunkSize - 1 &&
                             -r * ChunkSize <= z <= (r + 1) * ChunkSize - 1 ==>
                ColumnGenerated(view, terrain, seed, x, z)
    {
      for chunkZ := -r to r + 1
        invariant Valid() && radiusInChunks == old(radiusInChunks) && seed == old(seed) && revision >= old(revision)
        invariant forall c :: c in chunks ==> fresh(chunks[c])
        invariant forall c :: c in chunks ==> -r - 1 <= c.x <= r + 1 && -r - 1 <= c.z <= r + 1
        invariant SquareGeneratedUpTo(view, terrain, seed, r, -r, chunkZ)
      {
        GenerateSquareRow(r, chunkZ);
      }
      SquareCoversWorld(view, terrain, seed, r);
    }

    /** One step of Generate's outer loop: the chunks of row chunkZ of the square, x ascending. */
    method GenerateSquareRow(r: int, chunkZ: int)
      requires Valid() && r >= 1 && -r <= chunkZ <= r
      requires SquareGeneratedUpTo(view, terrain, seed, r, -r, chunkZ)
      modifies this, chunks.Values
      ensures Valid()
      ensures forall c :: c in chunks && c !in old(chunks) ==> fresh(chunks[c])
      ensures KeepsChunks(old(chunks))
      ensures forall c :: c in chunks && c !in old(chunks) ==>
                -r - 1 <= c.x <= r + 1 && chunkZ - 1 <= c.z <= chunkZ + 1
      ensures revision >= old(revision) && seed == old(seed) && radiusInChunks == old(radiusInChunks)
      ensures SquareGeneratedUpTo(view, terrain, seed, r, -r, chunkZ + 1)
    {
      for chunkX := -r to r + 1
        invariant Valid()
        invariant forall c :: c in chunks && c !in old(chunks) ==> fresh(chunks[c])
        invariant KeepsChunks(old(chunks))
        invariant forall c :: c in chunks && c !in old(chunks) ==>
                    -r - 1 <= c.x <= r + 1 && chunkZ - 1 <= c.z <= chunkZ + 1
        invariant revision >= old(revision) && seed == old(seed) && radiusInChunks == old(radiusInChunks)
        invariant SquareGeneratedUpTo(view, terrain, seed, r, chunkX, chunkZ)
      {
        GenerateSquareChunk(r, chunkX, chunkZ);
      }
      SquareRowDone(view, terrain, seed, r, chunkZ);
    }

    /** One step of Generate's loops: find or create chunk (chunkX, chunkZ), then generate it. */
    method GenerateSquareChunk(r: int, chunkX: int, chunkZ: int)
      requires Valid() && -r <= chunkX <= r && -r <= chunkZ <= r
      requires SquareGeneratedUpTo(view, terrain, seed, r, chunkX, chunkZ)
      modifies this, chunks.Values
      ensures Valid()
      ensures forall c :: c in chunks && c !in old(chunks) ==> fresh(chunks[c])
      ensures KeepsChunks(old(chunks))
      ensures forall c :: c in chunks && c !in old(chunks) ==> NearChunk(c, ChunkCoord(chunkX, chunkZ))
      ensures revision >= old(revision) && seed == old(seed) && radiusInChunks == old(radiusInChunks)
      ensures SquareGeneratedUpTo(view, terrain, seed, r, chunkX + 1, chunkZ)
    {
      ghost var vA := view;
      var chunk := EnsureChunk(chunkX, chunkZ);
      ghost var vB := view;
      GenerateChunk(ChunkCoord(chunkX, chunkZ), chunk);
      SquareStep(vA, vB, view, terrain, seed, r, chunkX, chunkZ);
    }

    /**
     * Generates every column of chunk `key`, whose buffer is `chunk`, z-major
     * then x. Columns of other chunks only gain leaves from its trees.
     */
    method GenerateChunk(key: ChunkCoord, chunk: array<BlockType>)
      requires Valid() && key in chunks && chunk == chunks[key]
      modifies this, chunks.Values
      ensures Valid()
      ensures forall c :: c in chunks && c !in old(chunks) ==> fresh(chunks[c])
      ensures KeepsChunks(old(chunks))
      ensures forall c :: c in chunks && c !in old(chunks) ==> NearChunk(c, key)
      ensures revision >= old(revision) && seed == old(seed) && radiusInChunks == old(radiusInChunks)
      ensures ChunkGenerated(view, terrain, seed, key)
      ensures LeavesOnlyOutside(old(view), view, key)
    {
      ghost var v0 := view;
      for localZ := 0 to ChunkSize
        invariant Valid() && key in chunks && chunk == chunks[key]
        invariant forall c :: c in chunks && c !in old(chunks) ==> fresh(chunks[c])
        invariant KeepsChunks(old(chunks))
        invariant forall c :: c in chunks && c !in old(chunks) ==> NearChunk(c, key)
        invariant revision >= old(revision) && seed == old(seed) && radiusInChunks == old(radiusInChunks)
        invariant ChunkGeneratedUpTo(view, terrain, seed, key, 0, localZ)
        invariant LeavesOnlyOutside(v0, view, key)
      {
        GenerateChunkRow(v0, key, chunk, localZ);
      }
    }

    /** One step of GenerateChunk's outer loop: the columns of local row localZ, x ascending. */
    method GenerateChunkRow(ghost v0: View, key: ChunkCoord, chunk: array<BlockType>, localZ: int)
      requires Valid() && key in chunks && chunk == chunks[key] && WellFormed(v0)
      requires 0 <= localZ < ChunkSize
      requires ChunkGeneratedUpTo(view, terrain, seed, key, 0, localZ)
      requires LeavesOnlyOutside(v0, view, key)
      modifies this, chunks.Values
      ensures Valid() && key in chunks && chunk == chunks[key]
      ensures forall c :: c in chunks && c !in old(chunks) ==> fresh(chunks[c])
      ensures KeepsChunks(old(chunks))
      ensures forall c :: c in chunks && c !in old(chunks) ==> NearChunk(c, key)
      ensures revision >= old(revision) && seed == old(seed) && radiusInChunks == old(radiusInChunks)
      ensures ChunkGeneratedUpTo(view, terrain, seed, key, 0, localZ + 1)
      ensures LeavesOnlyOutside(v0, view, key)
    {
      for localX := 0 to ChunkSize
        invariant Valid() && key in chunks && chunk == chunks[key]
        invariant forall c :: c in chunks && c !in old(chunks) ==> fresh(chunks[c])
        invariant KeepsChunks(old(chunks))
        invariant forall c :: c in chunks && c !in old(chunks) ==> NearChunk(c, key)
        invariant revision >= old(revision) && seed == old(seed) && radiusInChunks == old(radiusInChunks)
        invariant ChunkGeneratedUpTo(view, terrain, seed, key, localX, localZ)
        invariant LeavesOnlyOutside(v0, view, key)
      {
        GenerateChunkColumn(v0, key, chunk, localX, localZ);
      }
      ChunkRowDone(view, terrain, seed, key, localZ);
    }

    /** One step of GenerateChunk's loops, carrying its invariant across GenerateColumn. */
    method GenerateChunkColumn(ghost v0: View, key: ChunkCoord, chunk: array<BlockType>, localX: int, localZ: int)
      requires Valid() && key in chunks && chunk == chunks[key] && WellFormed(v0)
      requires 0 <= localX < ChunkSize && 0 <= localZ < ChunkSize
      requires ChunkGeneratedUpTo(view, terrain, seed, key, localX, localZ)
      requires LeavesOnlyOutside(v0, view, key)
      modifies this, chunks.Values
      ensures Valid()
      ensures forall c :: c in chunks && c !in old(chunks) ==> fresh(chunks[c])
      ensures KeepsChunks(old(chunks))
      ensures forall c :: c in chunks && c !in old(chunks) ==> NearChunk(c, key)
      ensures revision >= old(revision) && seed == old(seed) && radiusInChunks == old(radiusInChunks)
      ensures ChunkGeneratedUpTo(view, terrain, seed, key, localX + 1, localZ)
      ensures LeavesOnlyOutside(v0, view, key)
    {
      ghost var vA := view;
      GenerateColumn(key, chunk, localX, localZ);
      ColumnInChunk(key, localX, localZ);
      ChunkColumnStep(v0, vA, view, terrain, seed, key, localX, localZ);
    }

    /**
     * Generates world column (key.x * 16 + localX, key.z * 16 + localZ):
     * the terrain fill, then the tree rule when the column is high enough and
     * its salted hash is a multiple of 97.
     */
    method GenerateColumn(key: ChunkCoord, chunk: array<BlockType>, localX: int, localZ: int)
      requires Valid() && key in chunks && chunk == chunks[key]
      requires 0 <= localX < ChunkSize && 0 <= localZ < ChunkSize
      modifies this, chunks.Values
      ensures Valid()
      ensures forall c :: c in chunks && c !in old(chunks) ==> fresh(chunks[c])
      ensures KeepsChunks(old(chunks))
      ensures forall c :: c in chunks && c !in old(chunks) ==>
                NearColumn(c, WorldCoord(key.x, localX), WorldCoord(key.z, localZ))
      ensures revision >= old(revision) && seed == old(seed) && radiusInChunks == old(radiusInChunks)
      ensures ColumnGenerated(view, terrain, seed, WorldCoord(key.x, localX), WorldCoord(key.z, localZ))
      ensures OnlyLeavesGrewElsewhere(old(view), view, WorldCoord(key.x, localX), WorldCoord(key.z, localZ))
    {
      ghost var v0 := view;
      var worldX := WorldCoord(key.x, localX);
      var worldZ := WorldCoord(key.z, localZ);
      var surface := TerrainHeight(terrain, worldX, worldZ, seed);
      FillChunkColumn(key, chunk, localX, localZ, surface);
      GrowColumnTree(v0, key, localX, localZ, worldX, worldZ, surface);
    }

    /**
     * The tree gate of freshly filled world column (x, z), local column
     * (localX, localZ) of chunk `key`: a tree grows exactly when TreeAt holds.
     * Afterwards the column is generated and every other column only gained
     * leaves over `v0`, the view before the fill.
     */
    method GrowColumnTree(ghost v0: View, key: ChunkCoord, localX: int, localZ: int, x: int, z: int, surface: int)
      requires Valid() && WellFormed(v0) && key in v0
      requires 0 <= localX < ChunkSize && 0 <= localZ < ChunkSize
      requires x == WorldCoord(key.x, localX) && z == WorldCoord(key.z, localZ)
      requires surface == TerrainHeight(terrain, x, z, seed)
      requires view == v0[key := FillColumn(v0[key], localX, localZ, surface)]
      modifies this, chunks.Values
      ensures Valid()
      ensures forall c :: c in chunks && c !in old(chunks) ==> fresh(chunks[c])
      ensures KeepsChunks(old(chunks))
      ensures forall c :: c in chunks && c !in old(chunks) ==> NearColumn(c, x, z)
      ensures revision >= old(revision) && seed == old(seed) && radiusInChunks == old(radiusInChunks)
      ensures ColumnGenerated(view, terrain, seed, x, z)
      ensures OnlyLeavesGrewElsewhere(v0, view, x, z)
    {
      var tree := TreeAt(x, z, seed, surface);
      if tree {
        GrowTree(v0, key, localX, localZ, x, z, surface);
      } else {
        GenerateColumnEffect(v0, view, view, key, localX, localZ, x, z, surface, false);
      }
      SettledColumnIsGenerated(view, terrain, seed, x, z, surface, tree);
    }

    /**
     * GrowColumnTree when the gate is open: the tree is placed on the filled
     * column, which is then finished with a trunk.
     */
    method GrowTree(ghost v0: View, key: ChunkCoord, localX: int, localZ: int, x: int, z: int, surface: int)
      requires Valid() && WellFormed(v0) && key in v0
      requires 0 <= localX < ChunkSize && 0 <= localZ < ChunkSize
      requires x == WorldCoord(key.x, localX) && z == WorldCoord(key.z, localZ)
      requires view == v0[key := FillColumn(v0[key], localX, localZ, surface)]
      modifies this, chunks.Values
      ensures Valid()
      ensures forall c :: c in chunks && c !in old(chunks) ==> fresh(chunks[c])
      ensures KeepsChunks(old(chunks))
      ensures forall c :: c in chunks && c !in old(chunks) ==> NearColumn(c, x, z)
      ensures revision >= old(revision) && seed == old(seed) && radiusInChunks == old(radiusInChunks)
      ensures ColumnSettled(view, x, z, surface, true)
      ensures OnlyLeavesGrewElsewhere(v0, view, x, z)
    {
      ghost var v1 := view;
      PlaceTree(x, z, surface);
      GenerateColumnEffect(v0, v1, view, key, localX, localZ, x, z, surface, true);
    }

    /** The terrain fill of one column, straight into chunk `key`'s buffer; the revision is not bumped. */
    method FillChunkColumn(key: ChunkCoord, chunk: array<BlockType>, localX: int, localZ: int, surface: int)
      requires Valid() && key in chunks && chunk == chunks[key]
      requires 0 <= localX < ChunkSize && 0 <= localZ < ChunkSize
      modifies this`view, chunk
      ensures Valid()
      ensures view == old(view)[key := FillColumn(old(view)[key], localX, localZ, surface)]
    {
      WriteColumn(chunk, localX, localZ, surface);
      view := view[key := FillColumn(view[key], localX, localZ, surface)];
      forall c | c in chunks
        ensures chunks[c][..] == view[c]
      {
        if c != key {
          assert chunks[c] != chunk;
        }
      }
    }

    /**
     * The tree rule on column (x, z): four Wood cells above the surface (those
     * inside the world), then Leaves on every canopy cell that is still Air,
     * visiting the canopy z-major, then x, then y.
     */
    method PlaceTree(x: int, z: int, surface: int)
      requires Valid()
      modifies this, chunks.Values
      ensures Valid()
      ensures forall c :: c in chunks && c !in old(chunks) ==> fresh(chunks[c])
      ensures KeepsChunks(old(chunks))
      ensures forall c :: c in chunks && c !in old(chunks) ==> NearColumn(c, x, z)
      ensures revision >= old(revision) && seed == old(seed) && radiusInChunks == old(radiusInChunks)
      ensures TreePlaced(old(view), view, x, z, surface)
    {
      ghost var v0 := view;
      PlaceTrunk(x, z, surface);
      ghost var vT := view;
      PlaceCanopy(x, z, surface);
      TreeComplete(v0, vT, view, x, z, surface);
    }

    /** The trunk loop: Wood at heights surface + 1 .. surface + 4 that lie below the world top. */
    method PlaceTrunk(x: int, z: int, surface: int)
      requires Valid()
      modifies this, chunks.Values
      ensures Valid()
      ensures forall c :: c in chunks && c !in old(chunks) ==> fresh(chunks[c])
      ensures KeepsChunks(old(chunks))
      ensures forall c :: c in chunks && c !in old(chunks) ==> NearColumn(c, x, z)
      ensures revision >= old(revision) && seed == old(seed) && radiusInChunks == old(radiusInChunks)
      ensures TrunkPlaced(old(view), view, x, z, surface, 4)
    {
      ghost var v0 := view;
      for trunk := 1 to 5
        invariant Valid()
        invariant forall c :: c in chunks && c !in old(chunks) ==> fresh(chunks[c])
        invariant KeepsChunks(old(chunks))
        invariant forall c :: c in chunks && c !in old(chunks) ==> c == ChunkOf(x, z)
        invariant revision >= old(revision) && seed == old(seed) && radiusInChunks == old(radiusInChunks)
        invariant TrunkPlaced(v0, view, x, z, surface, trunk - 1)
      {
        PlaceWood(v0, x, z, surface, trunk);
      }
    }

    /**
     * One step of the trunk loop: Wood at height surface + trunk of column
     * (x, z) when that is below the world top.
     */
    method PlaceWood(ghost v0: View, x: int, z: int, surface: int, trunk: int)
      requires Valid() && WellFormed(v0)
      requires 1 <= trunk <= 4 && TrunkPlaced(v0, view, x, z, surface, trunk - 1)
      modifies this, chunks.Values
      ensures Valid()
      ensures forall c :: c in chunks && c !in old(chunks) ==> fresh(chunks[c])
      ensures KeepsChunks(old(chunks))
      ensures forall c :: c in chunks && c !in old(chunks) ==> c == ChunkOf(x, z)
      ensures revision >= old(revision) && seed == old(seed) && radiusInChunks == old(radiusInChunks)
      ensures TrunkPlaced(v0, view, x, z, surface, trunk)
    {
      ghost var before := view;
      var ty := surface + trunk;
      if ty < WorldHeight {
        var changed := SetBlock(x, ty, z, Wood);
      }
      TrunkStep(v0, before, view, x, z, surface, trunk);
    }

    /** The canopy loops over the 5 x 5 x 3 box above the surface, z-major, then x, then y. */
    method PlaceCanopy(x: int, z: int, surface: int)
      requires Valid()
      modifies this, chunks.Values
      ensures Valid()
      ensures forall c :: c in chunks && c !in old(chunks) ==> fresh(chunks[c])
      ensures KeepsChunks(old(chunks))
      ensures forall c :: c in chunks && c !in old(chunks) ==> NearColumn(c, x, z)
      ensures revision >= old(revision) && seed == old(seed) && radiusInChunks == old(radiusInChunks)
      ensures CanopyPlaced(old(view), view, x, z, surface, CanopyRank(-2, 3, 3))
    {
      ghost var vT := view;
      for oz := -2 to 3
        invariant Valid()
        invariant forall c :: c in chunks && c !in old(chunks) ==> fresh(chunks[c])
        invariant KeepsChunks(old(chunks))
        invariant forall c :: c in chunks && c !in old(chunks) ==> NearColumn(c, x, z)
        invariant revision >= old(revision) && seed == old(seed) && radiusInChunks == old(radiusInChunks)
        invariant CanopyPlaced(vT, view, x, z, surface, CanopyRank(-2, 3, oz))
      {
        for ox := -2 to 3
          invariant Valid()
          invariant forall c :: c in chunks && c !in old(chunks) ==> fresh(chunks[c])
          invariant KeepsChunks(old(chunks))
          invariant forall c :: c in chunks && c !in old(chunks) ==> NearColumn(c, x, z)
          invariant revision >= old(revision) && seed == old(seed) && radiusInChunks == old(radiusInChunks)
          invariant CanopyPlaced(vT, view, x, z, surface, CanopyRank(ox, 3, oz))
        {
          PlaceCanopyColumn(vT, x, z, surface, ox, oz);
        }
      }
    }

    /** The innermost canopy loop: offsets (ox, 3..5, oz). */
    method PlaceCanopyColumn(ghost vT: View, x: int, z: int, surface: int, ox: int, oz: int)
      requires -2 <= ox <= 2 && -2 <= oz <= 2
      requires Valid() && WellFormed(vT) && CanopyPlaced(vT, view, x, z, surface, CanopyRank(ox, 3, oz))
      modifies this, chunks.Values
      ensures Valid()
      ensures forall c :: c in chunks && c !in old(chunks) ==> fresh(chunks[c])
      ensures KeepsChunks(old(chunks))
      ensures forall c :: c in chunks && c !in old(chunks) ==> NearColumn(c, x, z)
      ensures revision >= old(revision) && seed == old(seed) && radiusInChunks == old(radiusInChunks)
      ensures CanopyPlaced(vT, view, x, z, surface, CanopyRank(ox + 1, 3, oz))
    {
      for oy := 3 to 6
        invariant Valid()
        invariant forall c :: c in chunks && c !in old(chunks) ==> fresh(chunks[c])
        invariant KeepsChunks(old(chunks))
        invariant forall c :: c in chunks && c !in old(chunks) ==> NearColumn(c, x, z)
        invariant revision >= old(revision) && seed == old(seed) && radiusInChunks == old(radiusInChunks)
        invariant CanopyPlaced(vT, view, x, z, surface, CanopyRank(ox, oy, oz))
      {
        PlaceLeaf(vT, x, z, surface, ox, oy, oz);
      }
    }

    /** One step of the canopy loop, carrying the canopy invariant across it. */
    method PlaceLeaf(ghost vT: View, x: int, z: int, surface: int, ox: int, oy: int, oz: int)
      requires Valid() && WellFormed(vT)
      requires -2 <= ox <= 2 && -2 <= oz <= 2 && 3 <= oy <= 5
      requires CanopyPlaced(vT, view, x, z, surface, CanopyRank(ox, oy, oz))
      modifies this, chunks.Values
      ensures Valid()
      ensures forall c :: c in chunks && c !in old(chunks) ==> fresh(chunks[c])
      ensures KeepsChunks(old(chunks))
      ensures forall c :: c in chunks && c !in old(chunks) ==> NearColumn(c, x, z)
      ensures revision >= old(revision) && seed == old(seed) && radiusInChunks == old(radiusInChunks)
      ensures CanopyPlaced(vT, view, x, z, surface, CanopyRank(ox, oy, oz) + 1)
    {
      ghost var before := view;
      WriteLeaf(x, z, surface, ox, oy, oz);
      CanopyStep(vT, before, view, x, z, surface, ox, oy, oz);
    }

    /**
     * Leaves at offset (ox, oy, oz) of column (x, z) when the offset is in the
     * canopy, below the world top and the cell is still Air.
     */
    method WriteLeaf(x: int, z: int, surface: int, ox: int, oy: int, oz: int)
      requires Valid()
      requires -2 <= ox <= 2 && -2 <= oz <= 2 && 3 <= oy <= 5
      modifies this, chunks.Values
      ensures Valid()
      ensures forall c :: c in chunks && c !in old(chunks) ==> fresh(chunks[c])
      ensures KeepsChunks(old(chunks))
      ensures forall c :: c in chunks && c !in old(chunks) ==> NearColumn(c, x, z)
      ensures revision >= old(revision) && seed == old(seed) && radiusInChunks == old(radiusInChunks)
      ensures LeafDue(old(view), x, z, surface, ox, oy, oz) ==>
              view == Store(old(view), x + ox, surface + oy, z + oz, Leaves)
      ensures !LeafDue(old(view), x, z, surface, ox, oy, oz) ==> view == old(view)
    {
      ghost var v0 := view;
      var ly := surface + oy;
      if Abs(ox) + Abs(oz) + Abs(oy - 4) <= 4 && ly < WorldHeight {
        assert InCanopy(ox, oy, oz);
        var current := GetBlock(x + ox, ly, z + oz);
        if current == Air {
          assert LeafDue(v0, x, z, surface, ox, oy, oz) == (0 <= ly);
          var changed := SetBlock(x + ox, ly, z + oz, Leaves);
          assert 0 <= ly ==> view == Store(v0, x + ox, surface + oy, z + oz, Leaves);
          NeighbourChunk(x, ox);
          NeighbourChunk(z, oz);
          assert NearColumn(ChunkOf(x + ox, z + oz), x, z);
        } else {
          assert !LeafDue(v0, x, z, surface, ox, oy, oz);
        }
      } else {
        assert !LeafDue(v0, x, z, surface, ox, oy, oz);
      }
    }

    /**
     * The highest solid cell of column (x, z), scanning down from the top;
     * 0 when the whole column is Air.
     */
    method SurfaceHeight(x: int, z: int) returns (h: int)
      requires Valid()
      ensures 0 <= h < WorldHeight
      ensures IsSolid(Lookup(view, x, h, z)) ||
              (h == 0 && forall y :: 0 <= y < WorldHeight ==> !IsSolid(Lookup(view, x, y, z)))
      ensures forall y :: h < y < WorldHeight ==> !IsSolid(Lookup(view, x, y, z))
    {
      var y := WorldHeight - 1;
      while y >= 0
        invariant -1 <= y < WorldHeight
        invariant forall y' :: y < y' < WorldHeight ==> !IsSolid(Lookup(view, x, y', z))
      {
        if IsSolid(GetBlock(x, y, z)) {
          return y;
        }
        y := y - 1;
      }
      return 0;
    }

    /**
     * The ray query over the cells the fixed-step march samples, in order.
     * The first solid sample is the hit; its normal comes from the cell
     * sampled before it. A degenerate ray (near-zero direction or a
     * non-positive distance) misses without sampling.
     */
    method Raycast(origin: (int, int, int), samples: seq<(int, int, int)>, degenerate: bool)
      returns (found: bool, hit: BlockHit)
      requires Valid()
      ensures found == hit.hit
      ensures !found ==> hit == NoHit
      ensures degenerate ==> !found
      ensures !degenerate && !found ==>
        forall k :: 0 <= k < |samples| ==> Lookup(view, samples[k].0, samples[k].1, samples[k].2) == Air
      ensures found ==>
        hit.steps < |samples| &&
        samples[hit.steps] == (hit.x, hit.y, hit.z) &&
        hit.block == Lookup(view, hit.x, hit.y, hit.z) && IsSolid(hit.block) &&
        (forall k :: 0 <= k < hit.steps ==> Lookup(view, samples[k].0, samples[k].1, samples[k].2) == Air) &&
        (hit.normalX, hit.normalY, hit.normalZ) == HitNormal(PreviousCell(origin, samples, hit.steps), samples[hit.steps])
    {
      if degenerate {
        return false, NoHit;
      }
      var previous := origin;
      var k := 0;
      while k < |samples|
        invariant 0 <= k <= |samples|
        invariant previous == PreviousCell(origin, samples, k)
        invariant forall j :: 0 <= j < k ==> Lookup(view, samples[j].0, samples[j].1, samples[j].2) == Air
      {
        var (x, y, z) := samples[k];
        var block := GetBlock(x, y, z);
        if block != Air {
          var normal := HitNormal(previous, (x, y, z));
          hit := BlockHit(true, x, y, z, normal.0, normal.1, normal.2, k, block);
          return true, hit;
        }
        previous := (x, y, z);
        k := k + 1;
      }
      return false, NoHit;
    }
  }
}
