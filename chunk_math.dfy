/**
 * Integer helpers of the voxel world: C++ division semantics, the floor
 * division / positive modulo pair that maps world coordinates to chunks,
 * the flat cell index inside a chunk, and the 32-bit mixing hash.
 */
module ChunkMath {
  import opened Blocks

  function Abs(a: int): nat
  {
    if a < 0 then -a else a
  }

  /** C++ `a / b`: the quotient truncated toward zero. */
  function TruncDiv(a: int, b: int): int
    requires b != 0
  {
    var q := Abs(a) / Abs(b);
    if (a < 0) != (b < 0) then -q else q
  }

  /** C++ `a % b`: the remainder takes the sign of the dividend. */
  function TruncRem(a: int, b: int): int
    requires b != 0
  {
    var r := Abs(a) % Abs(b);
    if a < 0 then -r else r
  }

  /**
   * Quotient rounded toward negative infinity, built from the truncating
   * operators: for a positive divisor it is the floor quotient.
   */
  function FloorDiv(value: int, divisor: int): (q: int)
    requires divisor != 0
    ensures divisor > 0 ==> q == value / divisor
  {
    TruncatedToFloor(value, divisor);
    var quotient := TruncDiv(value, divisor);
    var remainder := TruncRem(value, divisor);
    if remainder != 0 && ((remainder < 0) != (divisor < 0)) then quotient - 1 else quotient
  }

  /**
   * The truncating remainder, shifted up by the divisor when it is negative:
   * for a positive divisor it is the non-negative remainder.
   */
  function PositiveMod(value: int, divisor: int): (m: int)
    requires divisor != 0
    ensures divisor > 0 ==> m == value % divisor
  {
    TruncatedToFloor(value, divisor);
    var m := TruncRem(value, divisor);
    if m < 0 then m + divisor else m
  }

  /** Euclidean division is unique: any decomposition with a remainder in range is it. */
  lemma DivModUnique(v: int, d: int, q: int, r: int)
    requires d > 0 && 0 <= r < d && v == d * q + r
    ensures v / d == q && v % d == r
  {
    var q', r' := v / d, v % d;
    assert d * q' + r' == d * q + r;
    assert d * (q' - q) == r - r';
    if q' > q {
      MulAtLeast(d, q' - q);
    } else if q' < q {
      MulAtLeast(d, q - q');
    }
  }

  lemma {:induction false} MulAtLeast(d: int, k: int)
    requires d > 0 && k >= 1
    ensures d * k >= d
    decreases k
  {
    if k > 1 {
      MulAtLeast(d, k - 1);
      assert d * k == d * (k - 1) + d;
    }
  }

  /** Dividing a negative value: the floor quotient and remainder of -n from those of n. */
  lemma NegatedDivMod(n: int, d: int)
    requires n > 0 && d > 0
    ensures n % d == 0 ==> (-n) / d == -(n / d) && (-n) % d == 0
    ensures n % d != 0 ==> (-n) / d == -(n / d) - 1 && (-n) % d == d - n % d
  {
    var q, r := n / d, n % d;
    assert n == d * q + r;
    if r == 0 {
      assert -n == d * (-q);
      DivModUnique(-n, d, -q, 0);
    } else {
      assert -n == d * (-q - 1) + (d - r);
      DivModUnique(-n, d, -q - 1, d - r);
    }
  }

  /**
   * For a positive divisor, the truncating quotient and remainder are the
   * floor ones when the remainder is not negative, and one step off when it is.
   */
  lemma {:induction false} TruncatedToFloor(value: int, divisor: int)
    requires divisor != 0
    ensures divisor > 0 && TruncRem(value, divisor) >= 0 ==>
              TruncDiv(value, divisor) == value / divisor && TruncRem(value, divisor) == value % divisor
    ensures divisor > 0 && TruncRem(value, divisor) < 0 ==>
              TruncDiv(value, divisor) - 1 == value / divisor && TruncRem(value, divisor) + divisor == value % divisor
  {
    if divisor > 0 {
      assert Abs(divisor) == divisor;
      if value < 0 {
        assert TruncDiv(value, divisor) == -((-value) / divisor);
        assert TruncRem(value, divisor) == -((-value) % divisor);
        NegatedDivMod(-value, divisor);
      } else {
        assert TruncDiv(value, divisor) == value / divisor;
        assert TruncRem(value, divisor) == value % divisor;
      }
    }
  }

  /**
   * For a positive divisor the pair decomposes every value, negative ones
   * included, with the remainder in [0, divisor).
   */
  lemma FloorDivPositiveMod(value: int, divisor: int)
    requires divisor > 0
    ensures FloorDiv(value, divisor) == value / divisor
    ensures PositiveMod(value, divisor) == value % divisor
    ensures value == FloorDiv(value, divisor) * divisor + PositiveMod(value, divisor)
    ensures 0 <= PositiveMod(value, divisor) < divisor
  {
  }

  /** The worked example: world x = -1 lies in chunk -1 at local 15, not chunk 0 at local -1. */
  lemma MinusOneMapsToLastCellOfPreviousChunk()
    ensures FloorDiv(-1, ChunkSize) == -1 && PositiveMod(-1, ChunkSize) == 15
  {
  }

  /** The flat index of a cell inside a chunk buffer: y-major, then z, then x. */
  function Index(localX: int, y: int, localZ: int): (i: int)
    ensures 0 <= localX < ChunkSize && 0 <= localZ < ChunkSize && 0 <= y < WorldHeight ==> 0 <= i < ChunkVolume
  {
    (y * ChunkSize * ChunkSize) + (localZ * ChunkSize) + localX
  }

  /**
   * Every in-range cell has an index inside the chunk buffer, and the index
   * gives back the cell, so no two cells share a slot.
   */
  lemma IndexInverse(localX: int, y: int, localZ: int)
    requires 0 <= localX < ChunkSize && 0 <= localZ < ChunkSize && 0 <= y < WorldHeight
    ensures 0 <= Index(localX, y, localZ) < ChunkVolume
    ensures Index(localX, y, localZ) % ChunkSize == localX
    ensures Index(localX, y, localZ) / ChunkSize % ChunkSize == localZ
    ensures Index(localX, y, localZ) / (ChunkSize * ChunkSize) == y
    ensures Index(localX, y, localZ) % (ChunkSize * ChunkSize) == localZ * ChunkSize + localX
  {
    var i := Index(localX, y, localZ);
    DivModUnique(i, 16, y * 16 + localZ, localX);
    DivModUnique(y * 16 + localZ, 16, y, localZ);
    DivModUnique(i, 256, y, localZ * 16 + localX);
  }

  lemma IndexInjective(x1: int, y1: int, z1: int, x2: int, y2: int, z2: int)
    requires 0 <= x1 < ChunkSize && 0 <= z1 < ChunkSize && 0 <= y1 < WorldHeight
    requires 0 <= x2 < ChunkSize && 0 <= z2 < ChunkSize && 0 <= y2 < WorldHeight
    ensures Index(x1, y1, z1) == Index(x2, y2, z2) <==> (x1, y1, z1) == (x2, y2, z2)
  {
    IndexInverse(x1, y1, z1);
    IndexInverse(x2, y2, z2);
  }

  /** v fits a 32-bit signed int. */
  predicate Int32(v: int)
  {
    -0x8000_0000 <= v < 0x8000_0000
  }

  /** The 32-bit two's-complement bit pattern of a 32-bit signed int. */
  function TwosComplement(v: int): bv32
    requires Int32(v)
  {
    if v < 0 then (v + 0x1_0000_0000) as bv32 else v as bv32
  }

  /**
   * `static_cast<std::uint32_t>` of an int, as reduction modulo 2^32: on a
   * 32-bit signed int it reinterprets the two's-complement bits.
   */
  function U32(v: int): (r: bv32)
    ensures Int32(v) ==> r == TwosComplement(v)
  {
    Int32Residue(v);
    (v % 0x1_0000_0000) as bv32
  }

  /** A 32-bit signed int modulo 2^32: itself when non-negative, shifted up by 2^32 otherwise. */
  lemma Int32Residue(v: int)
    ensures Int32(v) ==> v % 0x1_0000_0000 == if v < 0 then v + 0x1_0000_0000 else v
  {
    if Int32(v) {
      if v < 0 {
        DivModUnique(v, 0x1_0000_0000, -1, v + 0x1_0000_0000);
      } else {
        DivModUnique(v, 0x1_0000_0000, 0, v);
      }
    }
  }

  /**
   * The multiply / xor-shift mixing hash, in wrapping 32-bit arithmetic, of
   * the two's-complement bits of the source's int arguments.
   */
  function Hash2D(x: int, z: int, seed: int): (h: bv32)
    ensures Int32(x) && Int32(z) && Int32(seed) ==>
              h == Mix(TwosComplement(x), TwosComplement(z), TwosComplement(seed))
  {
    Mix(U32(x), U32(z), U32(seed))
  }

  /** The body of Hash2D once its arguments are cast to 32 bits. */
  function Mix(ux: bv32, uz: bv32, useed: bv32): bv32
  {
    var h1 := useed ^ (ux * 0x045d9f3b);
    var h2 := h1 ^ (uz * 0x119de1f3);
    var h3 := h2 ^ (h2 >> 16);
    var h4 := h3 * 0x7feb352d;
    var h5 := h4 ^ (h4 >> 15);
    var h6 := h5 * 0x846ca68b;
    h6 ^ (h6 >> 16)
  }

  /** The hash sees only the low 32 bits of each argument. */
  lemma Hash2DWraps(x: int, z: int, seed: int, k: int)
    ensures Hash2D(x + k * 0x1_0000_0000, z, seed) == Hash2D(x, z, seed)
    ensures Hash2D(x, z + k * 0x1_0000_0000, seed) == Hash2D(x, z, seed)
    ensures Hash2D(x, z, seed + k * 0x1_0000_0000) == Hash2D(x, z, seed)
  {
    U32Periodic(x, k);
    U32Periodic(z, k);
    U32Periodic(seed, k);
  }

  lemma U32Periodic(v: int, k: int)
    ensures U32(v + k * 0x1_0000_0000) == U32(v)
  {
    DivModUnique(v + k * 0x1_0000_0000, 0x1_0000_0000, v / 0x1_0000_0000 + k, v % 0x1_0000_0000);
  }
}
