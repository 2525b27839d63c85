/**
 * The abstract contents of a voxel world: chunk coordinate to the chunk's
 * cells, read and written in world coordinates. The class in module Voxels
 * is proved against these functions; the generation rules (terrain column
 * classification, the tree rule) are stated here as well.
 */
module WorldView {
  import opened Blocks
  import opened ChunkMath

  /** Chunk coordinate to the chunk's flat cell buffer. */
  type View = map<ChunkCoord, seq<BlockType>>

  ghost predicate WellFormed(v: View)
  {
    forall c :: c in v ==> |v[c]| == ChunkVolume
  }

  /**
   * The chunk that holds world column (x, z): floor division by the chunk
   * size, which FloorDivPositiveMod shows the source's FloorDiv computes.
   */
  function ChunkOf(x: int, z: int): ChunkCoord
  {
    ChunkCoord(x / ChunkSize, z / ChunkSize)
  }

  /** The slot of world cell (x, y, z) inside its chunk, from the non-negative remainders. */
  function LocalIndex(x: int, y: int, z: int): int
  {
    Index(x % ChunkSize, y, z % ChunkSize)
  }

  /** The source's FloorDiv / PositiveMod pair addresses the same chunk and slot. */
  lemma AddressBySourceOperators(x: int, y: int, z: int)
    ensures ChunkOf(x, z) == ChunkCoord(FloorDiv(x, ChunkSize), FloorDiv(z, ChunkSize))
    ensures LocalIndex(x, y, z) == Index(PositiveMod(x, ChunkSize), y, PositiveMod(z, ChunkSize))
  {
    FloorDivPositiveMod(x, ChunkSize);
    FloorDivPositiveMod(z, ChunkSize);
  }

  lemma LocalIndexInRange(x: int, y: int, z: int)
    requires 0 <= y < WorldHeight
    ensures 0 <= LocalIndex(x, y, z) < ChunkVolume
  {
    IndexInverse(x % ChunkSize, y, z % ChunkSize);
  }

  /**
   * Two in-range world cells with the same chunk and the same slot are the
   * same cell: the chunk/slot address is injective.
   */
  lemma {:induction false} AddressInjective(x1: int, y1: int, z1: int, x2: int, y2: int, z2: int)
    requires 0 <= y1 < WorldHeight && 0 <= y2 < WorldHeight
    requires ChunkOf(x1, z1) == ChunkOf(x2, z2)
    requires LocalIndex(x1, y1, z1) == LocalIndex(x2, y2, z2)
    ensures x1 == x2 && y1 == y2 && z1 == z2
  {
    IndexInjective(x1 % ChunkSize, y1, z1 % ChunkSize, x2 % ChunkSize, y2, z2 % ChunkSize);
  }

  /**
   * The block at a world cell: Air outside the height range or in a chunk
   * that does not exist, the stored cell otherwise.
   */
  ghost function Lookup(v: View, x: int, y: int, z: int): BlockType
    requires WellFormed(v)
  {
    if y < 0 || y >= WorldHeight then Air
    else
      var c := ChunkOf(x, z);
      if c !in v then Air
      else
        LocalIndexInRange(x, y, z);
        v[c][LocalIndex(x, y, z)]
  }

  /** A freshly created chunk: every cell Air. */
  ghost function AirChunk(): (cells: seq<BlockType>)
    ensures |cells| == ChunkVolume
    ensures forall i :: 0 <= i < ChunkVolume ==> cells[i] == Air
  {
    seq(ChunkVolume, _ => Air)
  }

  /** The view after chunk c has been looked up for writing: created all-Air if absent. */
  ghost function Materialise(v: View, c: ChunkCoord): View
  {
    if c in v then v else v[c := AirChunk()]
  }

  /** Creating a chunk adds its key and changes no block anywhere. */
  lemma MaterialiseKeepsBlocks(v: View, c: ChunkCoord, x: int, y: int, z: int)
    requires WellFormed(v)
    ensures WellFormed(Materialise(v, c))
    ensures Materialise(v, c).Keys == v.Keys + {c}
    ensures Lookup(Materialise(v, c), x, y, z) == Lookup(v, x, y, z)
  {
    if 0 <= y < WorldHeight {
      LocalIndexInRange(x, y, z);
    }
  }

  /** The view after writing type t at world cell (x, y, z). */
  ghost function Store(v: View, x: int, y: int, z: int, t: BlockType): (r: View)
    requires WellFormed(v) && 0 <= y < WorldHeight
    ensures WellFormed(r)
  {
    var c := ChunkOf(x, z);
    var m := Materialise(v, c);
    LocalIndexInRange(x, y, z);
    m[c := m[c][LocalIndex(x, y, z) := t]]
  }

  /**
   * Read after write: the written cell reads back the new type and every
   * other cell keeps its block; the only key added is the written chunk's.
   */
  lemma {:induction false} StoreLookup(v: View, x: int, y: int, z: int, t: BlockType, x': int, y': int, z': int)
    requires WellFormed(v) && 0 <= y < WorldHeight
    ensures Store(v, x, y, z, t).Keys == v.Keys + {ChunkOf(x, z)}
    ensures Lookup(Store(v, x, y, z, t), x', y', z') ==
            if x' == x && y' == y && z' == z then t else Lookup(v, x', y', z')
  {
    var c := ChunkOf(x, z);
    MaterialiseKeepsBlocks(v, c, x', y', z');
    LocalIndexInRange(x, y, z);
    if 0 <= y' < WorldHeight {
      LocalIndexInRange(x', y', z');
      if ChunkOf(x', z') == c && LocalIndex(x', y', z') == LocalIndex(x, y, z) {
        AddressInjective(x, y, z, x', y', z');
      }
    }
  }

  /** Store is the slot update in the materialised chunk, and Lookup reads that slot. */
  lemma StoreUpdatesMaterialised(v: View, x: int, y: int, z: int, t: BlockType)
    requires WellFormed(v) && 0 <= y < WorldHeight
    ensures 0 <= LocalIndex(x, y, z) < ChunkVolume
    ensures ChunkOf(x, z) in Materialise(v, ChunkOf(x, z))
    ensures WellFormed(Materialise(v, ChunkOf(x, z)))
    ensures Lookup(v, x, y, z) == Materialise(v, ChunkOf(x, z))[ChunkOf(x, z)][LocalIndex(x, y, z)]
    ensures Store(v, x, y, z, t) ==
            Materialise(v, ChunkOf(x, z))[ChunkOf(x, z) :=
              Materialise(v, ChunkOf(x, z))[ChunkOf(x, z)][LocalIndex(x, y, z) := t]]
  {
    LocalIndexInRange(x, y, z);
  }

  /** Writing the block a cell already holds leaves every block as it was. */
  lemma StoreSameBlock(v: View, x: int, y: int, z: int, x': int, y': int, z': int)
    requires WellFormed(v) && 0 <= y < WorldHeight
    ensures Lookup(Store(v, x, y, z, Lookup(v, x, y, z)), x', y', z') == Lookup(v, x', y', z')
  {
    StoreLookup(v, x, y, z, Lookup(v, x, y, z), x', y', z');
  }

  // ----- Terrain generation rules -----

  /**
   * The block a generated column holds at height y for surface height s:
   * Sand (shores below 8) or Grass on top, two layers of Dirt, Stone below,
   * Air above.
   */
  function TerrainBlock(y: int, surface: int): BlockType
  {
    if y > surface then Air
    else if y == surface then (if surface < 8 then Sand else Grass)
    else if y >= surface - 2 then Dirt
    else Stone
  }

  /** A terrain column is solid exactly up to and including its surface. */
  lemma TerrainSolidUpToSurface(y: int, surface: int)
    ensures IsSolid(TerrainBlock(y, surface)) <==> y <= surface
    ensures y == surface ==> (TerrainBlock(y, surface) == Sand <==> surface < 8)
    ensures surface - 2 <= y < surface ==> TerrainBlock(y, surface) == Dirt
    ensures y < surface - 2 ==> TerrainBlock(y, surface) == Stone
  {
  }

  /** The tree gate: a high enough column whose salted hash is a multiple of 97. */
  function TreeAt(x: int, z: int, seed: int, surface: int): bool
  {
    TreeGate(surface, Hash2D(x, z, seed + 91))
  }

  /** The tree test on a column's surface height and its tree noise. */
  function TreeGate(surface: int, treeNoise: bv32): bool
  {
    surface > 10 && (treeNoise as int) % 97 == 0
  }

  /** The leaf canopy's offsets from the column's surface cell. */
  predicate InCanopy(ox: int, oy: int, oz: int)
  {
    -2 <= ox <= 2 && -2 <= oz <= 2 && 3 <= oy <= 5 &&
    Abs(ox) + Abs(oz) + Abs(oy - 4) <= 4
  }

  /** The trunk: four cells straight up from the surface, clipped to the world height. */
  predicate InTrunk(x: int, z: int, surface: int, x': int, y': int, z': int)
  {
    x' == x && z' == z && surface + 1 <= y' <= surface + 4 && 0 <= y' < WorldHeight
  }

  /**
   * The block at (x', y', z') after a tree is placed on column (x, z) with
   * surface s in view v: Wood on the trunk, Leaves on canopy cells that were
   * Air, everything else as before.
   */
  ghost function TreeBlock(v: View, x: int, z: int, surface: int, x': int, y': int, z': int): BlockType
    requires WellFormed(v)
  {
    if InTrunk(x, z, surface, x', y', z') then Wood
    else if 0 <= y' < WorldHeight && InCanopy(x' - x, y' - surface, z' - z) && Lookup(v, x', y', z') == Air then Leaves
    else Lookup(v, x', y', z')
  }

  /** v' is v after the tree rule has run on column (x, z) with surface height `surface`. */
  ghost predicate TreePlaced(v: View, v': View, x: int, z: int, surface: int)
    requires WellFormed(v) && WellFormed(v')
  {
    forall x', y', z' :: Lookup(v', x', y', z') == TreeBlock(v, x, z, surface, x', y', z')
  }

  /** Column (x, z) holds Wood on its first n trunk cells; every other cell is as in v0. */
  ghost predicate TrunkPlaced(v0: View, v: View, x: int, z: int, surface: int, n: int)
    requires WellFormed(v0) && WellFormed(v)
  {
    forall x', y', z' :: Lookup(v, x', y', z') ==
      if InTrunk(x, z, surface, x', y', z') && y' <= surface + n then Wood else Lookup(v0, x', y', z')
  }

  /**
   * The trunk loop's step: writing Wood at height surface + n (when that is
   * inside the world) extends the placed trunk by one cell.
   */
  lemma {:induction false} TrunkStep(v0: View, v: View, v': View, x: int, z: int, surface: int, n: int)
    requires WellFormed(v0) && WellFormed(v) && WellFormed(v')
    requires 1 <= n <= 4 && TrunkPlaced(v0, v, x, z, surface, n - 1)
    requires 0 <= surface + n < WorldHeight ==> v' == Store(v, x, surface + n, z, Wood)
    requires !(0 <= surface + n < WorldHeight) ==> v' == v
    ensures TrunkPlaced(v0, v', x, z, surface, n)
  {
    if 0 <= surface + n < WorldHeight {
      forall x', y', z'
        ensures Lookup(v', x', y', z') ==
          if InTrunk(x, z, surface, x', y', z') && y' <= surface + n then Wood else Lookup(v0, x', y', z')
      {
        StoreLookup(v, x, surface + n, z, Wood, x', y', z');
      }
    } else {
      forall x', y', z'
        ensures Lookup(v', x', y', z') ==
          if InTrunk(x, z, surface, x', y', z') && y' <= surface + n then Wood else Lookup(v0, x', y', z')
      {
        assert Lookup(v', x', y', z') == Lookup(v, x', y', z');
      }
    }
  }

  /** The position of canopy offset (ox, oy, oz) in placement order: z outermost, then x, then y. */
  function CanopyRank(ox: int, oy: int, oz: int): int
  {
    ((oz + 2) * 5 + (ox + 2)) * 3 + (oy - 3)
  }

  /**
   * The canopy cells of rank below k that were Air in vT now hold Leaves;
   * every other cell is as in vT.
   */
  ghost predicate CanopyPlaced(vT: View, v: View, x: int, z: int, surface: int, k: int)
    requires WellFormed(vT) && WellFormed(v)
  {
    forall x', y', z' :: Lookup(v, x', y', z') == CanopyBlock(vT, x, z, surface, k, x', y', z')
  }

  /** Leaves on canopy cells of rank below k that are Air in vT; vT's block everywhere else. */
  ghost function CanopyBlock(vT: View, x: int, z: int, surface: int, k: int, x': int, y': int, z': int): BlockType
    requires WellFormed(vT)
  {
    if 0 <= y' < WorldHeight && InCanopy(x' - x, y' - surface, z' - z) &&
       CanopyRank(x' - x, y' - surface, z' - z) < k && Lookup(vT, x', y', z') == Air
    then Leaves
    else Lookup(vT, x', y', z')
  }

  /**
   * The canopy loop's step at offset (ox, oy, oz): Leaves are written when
   * the offset is in the canopy, inside the world and still Air.
   */
  lemma {:induction false} CanopyStep(vT: View, v: View, v': View, x: int, z: int, surface: int,
                                      ox: int, oy: int, oz: int)
    requires WellFormed(vT) && WellFormed(v) && WellFormed(v')
    requires -2 <= ox <= 2 && -2 <= oz <= 2 && 3 <= oy <= 5
    requires CanopyPlaced(vT, v, x, z, surface, CanopyRank(ox, oy, oz))
    requires LeafDue(v, x, z, surface, ox, oy, oz) ==> v' == Store(v, x + ox, surface + oy, z + oz, Leaves)
    requires !LeafDue(v, x, z, surface, ox, oy, oz) ==> v' == v
    ensures CanopyPlaced(vT, v', x, z, surface, CanopyRank(ox, oy, oz) + 1)
  {
    forall x', y', z'
      ensures Lookup(v', x', y', z') == CanopyBlock(vT, x, z, surface, CanopyRank(ox, oy, oz) + 1, x', y', z')
    {
      CanopyCellStep(vT, v, v', x, z, surface, ox, oy, oz, x', y', z');
    }
  }

  /** CanopyStep at one cell (x', y', z'). */
  lemma CanopyCellStep(vT: View, v: View, v': View, x: int, z: int, surface: int,
                       ox: int, oy: int, oz: int, x': int, y': int, z': int)
    requires WellFormed(vT) && WellFormed(v) && WellFormed(v')
    requires -2 <= ox <= 2 && -2 <= oz <= 2 && 3 <= oy <= 5
    requires Lookup(v, x', y', z') == CanopyBlock(vT, x, z, surface, CanopyRank(ox, oy, oz), x', y', z')
    requires LeafDue(v, x, z, surface, ox, oy, oz) ==> v' == Store(v, x + ox, surface + oy, z + oz, Leaves)
    requires !LeafDue(v, x, z, surface, ox, oy, oz) ==> v' == v
    ensures Lookup(v', x', y', z') == CanopyBlock(vT, x, z, surface, CanopyRank(ox, oy, oz) + 1, x', y', z')
  {
    var due := LeafDue(v, x, z, surface, ox, oy, oz);
    MaybeStoreLookup(v, v', x + ox, surface + oy, z + oz, Leaves, due, x', y', z');
    if (x' - x, y' - surface, z' - z) != (ox, oy, oz) && InCanopy(x' - x, y' - surface, z' - z) {
      CanopyRankInjective(x' - x, y' - surface, z' - z, ox, oy, oz);
    }
  }

  /** Read after a write that happens only when `write` holds. */
  lemma MaybeStoreLookup(v: View, v': View, x: int, y: int, z: int, t: BlockType, write: bool,
                         x': int, y': int, z': int)
    requires WellFormed(v) && WellFormed(v')
    requires write ==> 0 <= y < WorldHeight && v' == Store(v, x, y, z, t)
    requires !write ==> v' == v
    ensures Lookup(v', x', y', z') ==
            if write && x' == x && y' == y && z' == z then t else Lookup(v, x', y', z')
  {
    if write {
      StoreLookup(v, x, y, z, t, x', y', z');
    }
  }

  /** Canopy offset (ox, oy, oz) is due for Leaves: in the canopy, inside the world and still Air. */
  ghost predicate LeafDue(v: View, x: int, z: int, surface: int, ox: int, oy: int, oz: int)
    requires WellFormed(v)
  {
    InCanopy(ox, oy, oz) && 0 <= surface + oy < WorldHeight &&
    Lookup(v, x + ox, surface + oy, z + oz) == Air
  }

  /** Distinct canopy-box offsets have distinct ranks. */
  lemma CanopyRankInjective(a: int, b: int, c: int, ox: int, oy: int, oz: int)
    requires -2 <= a <= 2 && -2 <= c <= 2 && 3 <= b <= 5
    requires -2 <= ox <= 2 && -2 <= oz <= 2 && 3 <= oy <= 5
    requires (a, b, c) != (ox, oy, oz)
    ensures CanopyRank(a, b, c) != CanopyRank(ox, oy, oz)
  {
  }

  /** With the whole trunk and every canopy rank done, the view is the tree rule applied to v0. */
  lemma {:induction false} TreeComplete(v0: View, vT: View, v: View, x: int, z: int, surface: int)
    requires WellFormed(v0) && WellFormed(vT) && WellFormed(v)
    requires TrunkPlaced(v0, vT, x, z, surface, 4)
    requires CanopyPlaced(vT, v, x, z, surface, CanopyRank(-2, 3, 3))
    ensures TreePlaced(v0, v, x, z, surface)
  {
    forall x', y', z'
      ensures Lookup(v, x', y', z') == TreeBlock(v0, x, z, surface, x', y', z')
    {
      assert Lookup(vT, x', y', z') == if InTrunk(x, z, surface, x', y', z') then Wood else Lookup(v0, x', y', z');
    }
  }

  /**
   * What generation leaves in a cell of a finished column: the terrain at or
   * below the surface, Wood on a tree's trunk, Air or Leaves elsewhere.
   */
  predicate Settled(b: BlockType, y: int, surface: int, tree: bool)
  {
    if y <= surface then b == TerrainBlock(y, surface)
    else if tree && y <= surface + 4 then b == Wood
    else b == Air || b == Leaves
  }

  ghost predicate ColumnSettled(v: View, x: int, z: int, surface: int, tree: bool)
    requires WellFormed(v)
  {
    forall y :: 0 <= y < WorldHeight ==> Settled(Lookup(v, x, y, z), y, surface, tree)
  }

  /** Column (x, z) of v' differs from v's only where an Air cell became Leaves. */
  ghost predicate OnlyLeavesGrew(v: View, v': View, x: int, z: int)
    requires WellFormed(v) && WellFormed(v')
  {
    forall y :: 0 <= y < WorldHeight ==>
      Lookup(v', x, y, z) == Lookup(v, x, y, z) ||
      (Lookup(v, x, y, z) == Air && Lookup(v', x, y, z) == Leaves)
  }

  /** Every column other than (x, z) differs between v and v' only by leaves grown into Air. */
  ghost predicate OnlyLeavesGrewElsewhere(v: View, v': View, x: int, z: int)
    requires WellFormed(v) && WellFormed(v')
  {
    forall x', z' :: (x', z') != (x, z) ==> OnlyLeavesGrew(v, v', x', z')
  }

  /**
   * A finished column stays finished when leaves grow into its Air cells:
   * its Air cells all lie where a finished column may hold Leaves.
   */
  lemma LeavesKeepSettled(v: View, v': View, x: int, z: int, surface: int, tree: bool)
    requires WellFormed(v) && WellFormed(v')
    requires ColumnSettled(v, x, z, surface, tree)
    requires OnlyLeavesGrew(v, v', x, z)
    ensures ColumnSettled(v', x, z, surface, tree)
  {
    forall y | 0 <= y < WorldHeight
      ensures Settled(Lookup(v', x, y, z), y, surface, tree)
    {
      TerrainSolidUpToSurface(y, surface);
    }
  }

  /** A tree changes no other column except by growing Leaves into Air. */
  lemma TreeOnlyGrowsLeavesElsewhere(v: View, v': View, x: int, z: int, surface: int, x': int, z': int)
    requires WellFormed(v) && WellFormed(v')
    requires (x', z') != (x, z)
    requires forall y :: Lookup(v', x', y, z') == TreeBlock(v, x, z, surface, x', y, z')
    ensures OnlyLeavesGrew(v, v', x', z')
  {
  }

  /**
   * A freshly filled column on which the tree rule has run is finished:
   * terrain up to the surface, the trunk (when the rule fired), and above
   * that at most leaves.
   */
  lemma TreeSettlesColumn(v: View, v': View, x: int, z: int, surface: int, tree: bool)
    requires WellFormed(v) && WellFormed(v')
    requires forall y :: 0 <= y < WorldHeight ==> Lookup(v, x, y, z) == TerrainBlock(y, surface)
    requires tree ==> forall y :: Lookup(v', x, y, z) == TreeBlock(v, x, z, surface, x, y, z)
    requires !tree ==> forall y :: Lookup(v', x, y, z) == Lookup(v, x, y, z)
    ensures ColumnSettled(v', x, z, surface, tree)
  {
    forall y | 0 <= y < WorldHeight
      ensures Settled(Lookup(v', x, y, z), y, surface, tree)
    {
      TerrainSolidUpToSurface(y, surface);
    }
  }

  /**
   * The chunk buffer after the fill loop of column (localX, localZ): every
   * slot of that column holds the terrain block of its height, the rest is
   * unchanged.
   */
  ghost function FillColumn(cells: seq<BlockType>, localX: int, localZ: int, surface: int): (r: seq<BlockType>)
    ensures |r| == |cells|
  {
    seq(|cells|, i requires 0 <= i < |cells| =>
      if i % (ChunkSize * ChunkSize) == localZ * ChunkSize + localX
      then TerrainBlock(i / (ChunkSize * ChunkSize), surface)
      else cells[i])
  }

  /**
   * After filling a column of chunk c, that world column holds the terrain
   * and every other world cell keeps its block.
   */
  lemma {:induction false} FillColumnLookup(v: View, c: ChunkCoord, localX: int, localZ: int, surface: int,
                                            x: int, y: int, z: int)
    requires WellFormed(v) && c in v
    requires 0 <= localX < ChunkSize && 0 <= localZ < ChunkSize
    ensures WellFormed(v[c := FillColumn(v[c], localX, localZ, surface)])
    ensures Lookup(v[c := FillColumn(v[c], localX, localZ, surface)], x, y, z) ==
            if x == WorldCoord(c.x, localX) && z == WorldCoord(c.z, localZ) && 0 <= y < WorldHeight
            then TerrainBlock(y, surface)
            else Lookup(v, x, y, z)
  {
    if 0 <= y < WorldHeight {
      var px, pz := x % ChunkSize, z % ChunkSize;
      IndexInverse(px, y, pz);
      var i := LocalIndex(x, y, z);
      if ChunkOf(x, z) == c {
        assert i % 256 == pz * 16 + px;
        if i % 256 == localZ * 16 + localX {
          DivModUnique(pz * 16 + px, 16, pz, px);
          DivModUnique(localZ * 16 + localX, 16, localZ, localX);
        }
      }
    }
  }

  /** The world coordinate of local coordinate `local` of the chunk at chunk coordinate `chunk`. */
  function WorldCoord(chunk: int, local: int): int
  {
    chunk * ChunkSize + local
  }

  /** Local column (localX, localZ) of chunk c is world column (c.x * 16 + localX, c.z * 16 + localZ). */
  lemma ColumnInChunk(c: ChunkCoord, localX: int, localZ: int)
    requires 0 <= localX < ChunkSize && 0 <= localZ < ChunkSize
    ensures ChunkOf(WorldCoord(c.x, localX), WorldCoord(c.z, localZ)) == c
    ensures WorldCoord(c.x, localX) % ChunkSize == localX
    ensures WorldCoord(c.z, localZ) % ChunkSize == localZ
  {
    DivModUnique(WorldCoord(c.x, localX), ChunkSize, c.x, localX);
    DivModUnique(WorldCoord(c.z, localZ), ChunkSize, c.z, localZ);
  }

  /** Growing leaves twice is growing leaves once. */
  lemma OnlyLeavesGrewTransitive(v0: View, v1: View, v2: View, x: int, z: int)
    requires WellFormed(v0) && WellFormed(v1) && WellFormed(v2)
    requires OnlyLeavesGrew(v0, v1, x, z) && OnlyLeavesGrew(v1, v2, x, z)
    ensures OnlyLeavesGrew(v0, v2, x, z)
  {
    forall y | 0 <= y < WorldHeight
      ensures Lookup(v2, x, y, z) == Lookup(v0, x, y, z) ||
              (Lookup(v0, x, y, z) == Air && Lookup(v2, x, y, z) == Leaves)
    {
      assert Lookup(v1, x, y, z) == Lookup(v0, x, y, z) ||
             (Lookup(v0, x, y, z) == Air && Lookup(v1, x, y, z) == Leaves);
    }
  }

  /**
   * Generating one column: fill local column (localX, localZ) of chunk c with
   * the terrain, then (when `tree`) run the tree rule on it. The column is
   * then finished, and every other column only gained leaves.
   */
  lemma {:induction false} GenerateColumnEffect(v0: View, v1: View, v2: View, c: ChunkCoord,
                                                localX: int, localZ: int, x: int, z: int,
                                                surface: int, tree: bool)
    requires WellFormed(v0) && WellFormed(v2) && c in v0
    requires 0 <= localX < ChunkSize && 0 <= localZ < ChunkSize
    requires x == WorldCoord(c.x, localX) && z == WorldCoord(c.z, localZ)
    requires v1 == v0[c := FillColumn(v0[c], localX, localZ, surface)]
    requires tree ==> TreePlaced(v1, v2, x, z, surface)
    requires !tree ==> v2 == v1
    ensures ColumnSettled(v2, x, z, surface, tree)
    ensures OnlyLeavesGrewElsewhere(v0, v2, x, z)
  {
    FillColumnLookup(v0, c, localX, localZ, surface, x, 0, z);
    forall y | 0 <= y < WorldHeight
      ensures Lookup(v1, x, y, z) == TerrainBlock(y, surface)
    {
      FillColumnLookup(v0, c, localX, localZ, surface, x, y, z);
    }
    TreeSettlesColumn(v1, v2, x, z, surface, tree);
    forall x', z' | (x', z') != (x, z)
      ensures OnlyLeavesGrew(v0, v2, x', z')
    {
      GenerateColumnElsewhere(v0, v1, v2, c, localX, localZ, x, z, surface, tree, x', z');
    }
  }

  /** GenerateColumnEffect for one other column (x', z'). */
  lemma GenerateColumnElsewhere(v0: View, v1: View, v2: View, c: ChunkCoord,
                                localX: int, localZ: int, x: int, z: int, surface: int, tree: bool,
                                x': int, z': int)
    requires WellFormed(v0) && WellFormed(v2) && c in v0
    requires 0 <= localX < ChunkSize && 0 <= localZ < ChunkSize
    requires x == WorldCoord(c.x, localX) && z == WorldCoord(c.z, localZ)
    requires v1 == v0[c := FillColumn(v0[c], localX, localZ, surface)]
    requires tree ==> TreePlaced(v1, v2, x, z, surface)
    requires !tree ==> v2 == v1
    requires (x', z') != (x, z)
    ensures OnlyLeavesGrew(v0, v2, x', z')
  {
    FillColumnLookup(v0, c, localX, localZ, surface, x', 0, z');
    forall y | 0 <= y < WorldHeight
      ensures Lookup(v1, x', y, z') == Lookup(v0, x', y, z')
    {
      FillColumnLookup(v0, c, localX, localZ, surface, x', y, z');
    }
    if tree {
      TreeOnlyGrowsLeavesElsewhere(v1, v2, x, z, surface, x', z');
    }
  }

  /** Cells up to a chunk's width away lie in the same chunk or a neighbouring one. */
  lemma NeighbourChunk(x: int, o: int)
    requires -ChunkSize <= o <= ChunkSize
    ensures x / ChunkSize - 1 <= (x + o) / ChunkSize <= x / ChunkSize + 1
  {
  }

  /** World column x lies in a chunk of [-r, r] exactly when -r*16 <= x <= (r+1)*16 - 1. */
  lemma ChunkRangeIsWorldRange(x: int, r: int)
    ensures -r <= x / ChunkSize <= r <==> -r * ChunkSize <= x <= (r + 1) * ChunkSize - 1
  {
  }
}
