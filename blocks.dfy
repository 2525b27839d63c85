/** Block types, world constants and the plain value records of the voxel world. */
module Blocks {

  /** A voxel's material. Air is the empty sentinel; every other type is solid. */
  datatype BlockType = Air | Grass | Dirt | Stone | Sand | Wood | Leaves

  /** The one-byte storage code of a block type. */
  function ToByte(t: BlockType): (b: nat)
    ensures b <= 6
    ensures (b == 0) <==> (t == Air)
  {
    match t
    case Air => 0
    case Grass => 1
    case Dirt => 2
    case Stone => 3
    case Sand => 4
    case Wood => 5
    case Leaves => 6
  }

  /** Reads a stored byte back; codes 7..255 name no block type. */
  function FromByte(b: nat): (r: Option<BlockType>)
    ensures r.Some? <==> b <= 6
  {
    match b
    case 0 => Some(Air)
    case 1 => Some(Grass)
    case 2 => Some(Dirt)
    case 3 => Some(Stone)
    case 4 => Some(Sand)
    case 5 => Some(Wood)
    case 6 => Some(Leaves)
    case _ => None
  }

  datatype Option<T> = None | Some(value: T)

  /** Every block type survives the trip through its storage byte. */
  lemma ByteRoundTrip(t: BlockType)
    ensures FromByte(ToByte(t)) == Some(t)
  {
  }

  /** Distinct block types have distinct storage bytes. */
  lemma ToByteInjective(s: BlockType, t: BlockType)
    ensures ToByte(s) == ToByte(t) ==> s == t
  {
    ByteRoundTrip(s);
    ByteRoundTrip(t);
  }

  /** A block is solid exactly when it is not Air: when its storage byte is not zero. */
  predicate IsSolid(t: BlockType): (b: bool)
    ensures b <==> ToByte(t) != 0
  {
    t != Air
  }

  const ChunkSize: int := 16
  const WorldHeight: int := 64
  /** Cells in one chunk: ChunkSize * WorldHeight * ChunkSize. */
  const ChunkVolume: int := 16384

  lemma ChunkVolumeIsProduct()
    ensures ChunkVolume == ChunkSize * WorldHeight * ChunkSize
  {
  }

  /** A chunk column's key; equality is component-wise. */
  datatype ChunkCoord = ChunkCoord(x: int, z: int)

  /**
   * The result of a ray query. The source keeps the distance travelled as a
   * float; here it is the number of fixed-size steps taken.
   */
  datatype BlockHit = BlockHit(
    hit: bool,
    x: int, y: int, z: int,
    normalX: int, normalY: int, normalZ: int,
    steps: nat,
    block: BlockType)

  /** The default-constructed hit record: a miss. */
  const NoHit: BlockHit := BlockHit(false, 0, 0, 0, 0, 0, 0, 0, Air)
}
