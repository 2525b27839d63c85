/**
 * The greedy chunk mesher. For each axis d it sweeps the dims[d] + 1 planes
 * between the chunk's cell layers; for each plane it builds a mask of the
 * visible faces, merges equal mask cells into maximal rectangles (zeroing the
 * cells it consumes) and emits one quad of 4 vertices and 6 indices per
 * rectangle. Finally it folds the vertices into a bounding box.
 */
module Mesher {
  import opened Blocks
  import opened WorldView
  import opened Voxels

  // ----- Colours -----

  /** The packed 0xAARRGGBB colour of a block type: opaque for solid blocks, zero for Air. */
  function BlockColor(t: BlockType): (c: nat)
    ensures c < 0x1_0000_0000
    ensures c == 0 <==> t == Air
    ensures t != Air ==> c / 0x100_0000 == 0xff
  {
    match t
    case Grass => 0xff4caa57
    case Dirt => 0xff705338
    case Stone => 0xff90939a
    case Sand => 0xffd7ca89
    case Wood => 0xff7f5a30
    case Leaves => 0xff5a9648
    case Air => 0
  }

  /**
   * The colour of a stored block code: codes that name no block type take
   * the switch's default, the Air colour.
   */
  function CodeColor(code: nat): (c: nat)
    ensures c != 0 <==> 1 <= code <= 6
    ensures c != 0 ==> c / 0x100_0000 == 0xff
  {
    match FromByte(code)
    case Some(t) => BlockColor(t)
    case None => 0
  }

  // ----- Plane geometry -----

  /** The chunk's extent along an axis: 16 along x and z, 64 along y. */
  function Dim(axis: int): nat
  {
    if axis == 1 then WorldHeight else ChunkSize
  }

  /** The first in-plane axis of sweep axis d. */
  function U(d: int): int
  {
    (d + 1) % 3
  }

  /** The second in-plane axis of sweep axis d. */
  function V(d: int): int
  {
    (d + 2) % 3
  }

  /** The component of p on an axis. */
  function Coord(p: (int, int, int), axis: int): int
  {
    if axis == 0 then p.0 else if axis == 1 then p.1 else p.2
  }

  /** The chunk-local point with coordinate s on axis d, i on axis U(d) and j on axis V(d). */
  function Point(d: int, s: int, i: int, j: int): (p: (int, int, int))
  {
    if d == 0 then (s, i, j) else if d == 1 then (j, s, i) else (i, j, s)
  }

  /** Point puts each coordinate on the axis it is meant for. */
  lemma PointOnAxes(d: int, s: int, i: int, j: int)
    requires 0 <= d < 3
    ensures Coord(Point(d, s, i, j), d) == s
    ensures Coord(Point(d, s, i, j), U(d)) == i
    ensures Coord(Point(d, s, i, j), V(d)) == j
  {
  }

  /** The chunk-local cell p lies inside the chunk. */
  predicate IsInside(p: (int, int, int))
  {
    0 <= p.0 < ChunkSize && 0 <= p.1 < WorldHeight && 0 <= p.2 < ChunkSize
  }

  /** The world-coordinate corner of the chunk at chunk coordinate c along x or z. */
  function ChunkBase(c: int): int
  {
    c * ChunkSize
  }

  // ----- The mask -----

  /** A visible face in the plane mask: the block it shows and the sign of its normal (0: no face). */
  datatype MaskCell = MaskCell(block: BlockType, normal: int)

  const EmptyCell: MaskCell := MaskCell(Air, 0)

  /**
   * The mask cell between sample a (behind the plane) and sample b (in
   * front): a face exactly when one of the two is solid and that one lies
   * inside the chunk; it shows the solid block and points away from it.
   */
  function MaskAt(a: BlockType, b: BlockType, aInside: bool, bInside: bool): (cell: MaskCell)
    ensures cell.normal != 0 <==> IsSolid(a) != IsSolid(b) && (if IsSolid(a) then aInside else bInside)
    ensures cell.normal == 1 ==> cell.block == a
    ensures cell.normal == -1 ==> cell.block == b
    ensures cell.normal != 0 ==> IsSolid(cell.block)
    ensures cell.normal == 0 ==> cell == EmptyCell
    ensures -1 <= cell.normal <= 1
  {
    if IsSolid(a) && !IsSolid(b) && aInside then MaskCell(a, 1)
    else if !IsSolid(a) && IsSolid(b) && bInside then MaskCell(b, -1)
    else EmptyCell
  }

  /** The block the mesher samples at chunk-local cell p of the chunk with corner (baseX, baseZ). */
  ghost function Sample(v: View, baseX: int, baseZ: int, p: (int, int, int)): BlockType
    requires WellFormed(v)
  {
    Lookup(v, baseX + p.0, p.1, baseZ + p.2)
  }

  /** Mask cell (i, j) of the plane between layers s and s + 1 along axis d. */
  ghost function MaskSpec(v: View, baseX: int, baseZ: int, d: int, s: int, i: int, j: int): MaskCell
    requires WellFormed(v)
  {
    var a := Point(d, s, i, j);
    var b := Point(d, s + 1, i, j);
    MaskAt(Sample(v, baseX, baseZ, a), Sample(v, baseX, baseZ, b), IsInside(a), IsInside(b))
  }

  /** A W x H grid of mask cells, indexed [a][b]. */
  ghost predicate GridShape(g: seq<seq<MaskCell>>, W: int, H: int)
  {
    |g| == W && forall a :: 0 <= a < W ==> |g[a]| == H
  }

  /** The whole mask of the plane between layers s and s + 1 along axis d. */
  ghost function PlaneMask(v: View, baseX: int, baseZ: int, d: int, s: int): (m: seq<seq<MaskCell>>)
    requires WellFormed(v)
    ensures GridShape(m, Dim(U(d)), Dim(V(d)))
    ensures forall a, b :: 0 <= a < Dim(U(d)) && 0 <= b < Dim(V(d)) ==> m[a][b] == MaskSpec(v, baseX, baseZ, d, s, a, b)
  {
    seq(Dim(U(d)), a => seq(Dim(V(d)), b => MaskSpec(v, baseX, baseZ, d, s, a, b)))
  }

  /** The mask array's cells as a value. */
  ghost function Grid(mask: array2<MaskCell>): (g: seq<seq<MaskCell>>)
    reads mask
    ensures GridShape(g, mask.Length0, mask.Length1)
    ensures forall a, b :: 0 <= a < mask.Length0 && 0 <= b < mask.Length1 ==> g[a][b] == mask[a, b]
  {
    seq(mask.Length0, a requires 0 <= a < mask.Length0 reads mask =>
      seq(mask.Length1, b requires 0 <= b < mask.Length1 reads mask => mask[a, b]))
  }

  // ----- Quads and their coverage -----

  /**
   * A merged rectangle on face layer `layer` of axis d, the plane between
   * cell layers layer - 1 and layer: w mask cells along U(d) from i and h
   * along V(d) from j, all showing `cell`.
   */
  datatype Quad = Quad(d: int, layer: int, i: int, j: int, w: int, h: int, cell: MaskCell)

  predicate OnPlane(q: Quad, d: int, layer: int)
  {
    q.d == d && q.layer == layer
  }

  predicate InRect(q: Quad, a: int, b: int)
  {
    q.i <= a < q.i + q.w && q.j <= b < q.j + q.h
  }

  /** How many quads of Q on plane (d, layer) cover mask cell (a, b). */
  function Covers(Q: seq<Quad>, d: int, layer: int, a: int, b: int): nat
    decreases |Q|
  {
    if |Q| == 0 then 0
    else
      var q := Q[|Q| - 1];
      Covers(Q[..|Q| - 1], d, layer, a, b) + (if OnPlane(q, d, layer) && InRect(q, a, b) then 1 else 0)
  }

  lemma CoversAppend(Q: seq<Quad>, q: Quad, d: int, layer: int, a: int, b: int)
    ensures Covers(Q + [q], d, layer, a, b) ==
            Covers(Q, d, layer, a, b) + (if OnPlane(q, d, layer) && InRect(q, a, b) then 1 else 0)
  {
    assert (Q + [q])[..|Q|] == Q;
  }

  /** A cell covered by some quad of a plane is inside one of that plane's quads. */
  lemma {:induction false} CoveringQuad(Q: seq<Quad>, d: int, layer: int, a: int, b: int) returns (k: int)
    requires Covers(Q, d, layer, a, b) > 0
    ensures 0 <= k < |Q| && OnPlane(Q[k], d, layer) && InRect(Q[k], a, b)
    decreases |Q|
  {
    var q := Q[|Q| - 1];
    if OnPlane(q, d, layer) && InRect(q, a, b) {
      k := |Q| - 1;
    } else {
      k := CoveringQuad(Q[..|Q| - 1], d, layer, a, b);
    }
  }

  /** A plane none of whose quads are in Q is not covered anywhere. */
  lemma {:induction false} CoversOffPlane(Q: seq<Quad>, d: int, layer: int, a: int, b: int)
    requires forall k :: 0 <= k < |Q| ==> !OnPlane(Q[k], d, layer)
    ensures Covers(Q, d, layer, a, b) == 0
    decreases |Q|
  {
    if |Q| > 0 {
      CoversOffPlane(Q[..|Q| - 1], d, layer, a, b);
    }
  }

  /** Appending quads of another plane leaves a plane's coverage unchanged. */
  lemma {:induction false} CoversKept(Q0: seq<Quad>, Q: seq<Quad>, d: int, layer: int, a: int, b: int)
    requires |Q0| <= |Q| && Q[..|Q0|] == Q0
    requires forall k :: |Q0| <= k < |Q| ==> !OnPlane(Q[k], d, layer)
    ensures Covers(Q, d, layer, a, b) == Covers(Q0, d, layer, a, b)
    decreases |Q|
  {
    if |Q| > |Q0| {
      assert Q[..|Q| - 1][..|Q0|] == Q0;
      CoversKept(Q0, Q[..|Q| - 1], d, layer, a, b);
    } else {
      assert Q == Q0;
    }
  }

  /** Quad q lies on the mask grid and shows the non-empty cell found at each of its cells in m. */
  ghost predicate QuadFits(q: Quad, m: seq<seq<MaskCell>>, W: int, H: int)
    requires GridShape(m, W, H)
  {
    0 <= q.i && 1 <= q.w && q.i + q.w <= W && 0 <= q.j && 1 <= q.h && q.j + q.h <= H &&
    q.cell.normal != 0 &&
    forall a, b :: InRect(q, a, b) ==> m[a][b] == q.cell
  }

  /** Cell (a, b) lies under one of the first n quads of Q on plane (d, layer). */
  ghost predicate TakenBefore(Q: seq<Quad>, n: int, d: int, layer: int, a: int, b: int)
    requires 0 <= n <= |Q|
  {
    exists k :: 0 <= k < n && OnPlane(Q[k], d, layer) && InRect(Q[k], a, b)
  }

  /**
   * Cell (a, b) stops the growth of quad n of Q, which shows `cell` on
   * plane (d, layer): the mask m0 holds another cell there, or a quad
   * emitted before it already took the cell.
   */
  ghost predicate Stops(m0: seq<seq<MaskCell>>, Q: seq<Quad>, n: int, d: int, layer: int, cell: MaskCell,
                        a: int, b: int, W: int, H: int)
    requires GridShape(m0, W, H) && 0 <= a < W && 0 <= b < H && 0 <= n <= |Q|
  {
    m0[a][b] != cell || TakenBefore(Q, n, d, layer, a, b)
  }

  /** Cell (a, b) comes before cell (i, j) in the merge's scan: rows in order, each from left to right. */
  predicate ScanBefore(a: int, b: int, i: int, j: int)
  {
    b < j || (b == j && a < i)
  }

  /**
   * Quad n of Q is the one the greedy scan emits next: every face cell of
   * m0 before its corner in scan order was taken by a quad emitted before
   * it, the cell right of its first row stops the width (or the row ends
   * there), and some cell of the row below it stops the height (or the
   * grid ends there).
   */
  ghost predicate Greedy(m0: seq<seq<MaskCell>>, Q: seq<Quad>, n: int, W: int, H: int)
    requires GridShape(m0, W, H) && 0 <= n < |Q|
    requires 0 <= Q[n].i && 1 <= Q[n].w && Q[n].i + Q[n].w <= W && 0 <= Q[n].j && 1 <= Q[n].h && Q[n].j + Q[n].h <= H
  {
    var q := Q[n];
    ScanFirst(m0, Q, n, W, H) &&
    (q.i + q.w == W || Stops(m0, Q, n, q.d, q.layer, q.cell, q.i + q.w, q.j, W, H)) &&
    (q.j + q.h == H || RowStops(m0, Q, n, q.j + q.h, W, H))
  }

  /** Every face cell of m0 before quad n's corner in scan order lies under an earlier quad of its plane. */
  ghost predicate ScanFirst(m0: seq<seq<MaskCell>>, Q: seq<Quad>, n: int, W: int, H: int)
    requires GridShape(m0, W, H) && 0 <= n < |Q|
  {
    forall a, b :: 0 <= a < W && 0 <= b < H && ScanBefore(a, b, Q[n].i, Q[n].j) && m0[a][b].normal != 0 ==>
      TakenBefore(Q, n, Q[n].d, Q[n].layer, a, b)
  }

  /** Some cell of row b under the columns of quad n of Q stops its growth. */
  ghost predicate RowStops(m0: seq<seq<MaskCell>>, Q: seq<Quad>, n: int, b: int, W: int, H: int)
    requires GridShape(m0, W, H) && 0 <= n < |Q| && 0 <= Q[n].i && Q[n].i + Q[n].w <= W && 0 <= b < H
  {
    exists a :: Q[n].i <= a < Q[n].i + Q[n].w && Stops(m0, Q, n, Q[n].d, Q[n].layer, Q[n].cell, a, b, W, H)
  }

  /** Quad n's greediness is judged by quads 0 .. n - 1 only: extending Q keeps it. */
  lemma GreedyKept(m0: seq<seq<MaskCell>>, Q0: seq<Quad>, Q: seq<Quad>, n: int, W: int, H: int)
    requires GridShape(m0, W, H) && 0 <= n < |Q0| <= |Q| && Q[..|Q0|] == Q0
    requires QuadFits(Q0[n], m0, W, H) && Greedy(m0, Q0, n, W, H)
    ensures Q[n] == Q0[n] && Greedy(m0, Q, n, W, H)
  {
    assert Q[n] == Q[..|Q0|][n];
    var q := Q[n];
    forall a, b | 0 <= a < W && 0 <= b < H && TakenBefore(Q0, n, q.d, q.layer, a, b)
      ensures TakenBefore(Q, n, q.d, q.layer, a, b)
    {
      var k :| 0 <= k < n && OnPlane(Q0[k], q.d, q.layer) && InRect(Q0[k], a, b);
      assert Q[k] == Q[..|Q0|][k];
    }
    if q.j + q.h < H {
      var a :| q.i <= a < q.i + q.w && Stops(m0, Q0, n, q.d, q.layer, q.cell, a, q.j + q.h, W, H);
      assert Stops(m0, Q, n, q.d, q.layer, q.cell, a, q.j + q.h, W, H);
    }
  }

  /** Some cell of row b of grid g in the run [i, i + w) differs from `cell`. */
  ghost predicate RowDiffers(g: seq<seq<MaskCell>>, i: int, w: int, b: int, cell: MaskCell, W: int, H: int)
    requires GridShape(g, W, H) && 0 <= i && i + w <= W && 0 <= b < H
  {
    exists a :: i <= a < i + w && g[a][b] != cell
  }

  /** RowBreaks on the mask array is RowDiffers on its grid. */
  lemma GridRowBreaks(mask: array2<MaskCell>, i: int, w: int, b: int, cell: MaskCell)
    requires 0 <= i && i + w <= mask.Length0 && 0 <= b < mask.Length1
    requires RowBreaks(mask, i, w, b, cell)
    ensures RowDiffers(Grid(mask), i, w, b, cell, mask.Length0, mask.Length1)
  {
    var a :| i <= a < i + w && 0 <= a < mask.Length0 && mask[a, b] != cell;
    assert Grid(mask)[a][b] != cell;
  }

  /**
   * The state of the merge of plane (d, layer), whose mask was m0, at scan
   * position (i, j): every cell is covered at most once, the covered cells
   * are zeroed and the others keep m0's value, every cell before the scan
   * position is empty, and every quad of the plane fits m0 and is greedy
   * with respect to the quads emitted before it.
   */
  ghost predicate MergeInv(g: seq<seq<MaskCell>>, m0: seq<seq<MaskCell>>, Q: seq<Quad>, d: int, layer: int,
                           W: int, H: int, i: int, j: int)
    requires GridShape(g, W, H) && GridShape(m0, W, H)
  {
    (forall a, b :: 0 <= a < W && 0 <= b < H ==>
       Covers(Q, d, layer, a, b) <= 1 &&
       g[a][b] == if Covers(Q, d, layer, a, b) == 0 then m0[a][b] else EmptyCell) &&
    (forall a, b :: 0 <= a < W && 0 <= b < H && ScanBefore(a, b, i, j) ==> g[a][b].normal == 0) &&
    (forall k :: 0 <= k < |Q| && OnPlane(Q[k], d, layer) ==> QuadFits(Q[k], m0, W, H) && Greedy(m0, Q, k, W, H))
  }

  /**
   * Plane (d, layer) with mask m0 is meshed: every face cell of m0 is
   * covered by exactly one of the plane's quads, every other cell by none,
   * and every quad of the plane fits m0 and is greedy.
   */
  ghost predicate MergedPlane(m0: seq<seq<MaskCell>>, Q: seq<Quad>, d: int, layer: int, W: int, H: int)
    requires GridShape(m0, W, H)
  {
    (forall a, b :: 0 <= a < W && 0 <= b < H ==>
       Covers(Q, d, layer, a, b) == if m0[a][b].normal != 0 then 1 else 0) &&
    (forall k :: 0 <= k < |Q| && OnPlane(Q[k], d, layer) ==> QuadFits(Q[k], m0, W, H) && Greedy(m0, Q, k, W, H))
  }

  /** Before the first quad of a plane the merge state is the untouched mask. */
  lemma MergeStart(g: seq<seq<MaskCell>>, m0: seq<seq<MaskCell>>, Q: seq<Quad>, d: int, layer: int, W: int, H: int)
    requires GridShape(g, W, H) && GridShape(m0, W, H)
    requires forall a, b :: 0 <= a < W && 0 <= b < H ==> g[a][b] == m0[a][b]
    requires forall k :: 0 <= k < |Q| ==> !OnPlane(Q[k], d, layer)
    ensures MergeInv(g, m0, Q, d, layer, W, H, 0, 0)
  {
    forall a, b | 0 <= a < W && 0 <= b < H
      ensures Covers(Q, d, layer, a, b) == 0
    {
      CoversOffPlane(Q, d, layer, a, b);
    }
  }

  /**
   * One merge step: quad q is grown from the scan position over cells that
   * all hold its (non-empty) cell, as far as a differing cell of g or the
   * grid's edge allows, and those cells are zeroed. The merge state moves
   * past the quad's first row.
   */
  lemma {:induction false} MergeStep(g: seq<seq<MaskCell>>, g': seq<seq<MaskCell>>, m0: seq<seq<MaskCell>>,
                                     Q: seq<Quad>, q: Quad, d: int, layer: int, W: int, H: int)
    requires GridShape(g, W, H) && GridShape(g', W, H) && GridShape(m0, W, H)
    requires OnPlane(q, d, layer) && MergeInv(g, m0, Q, d, layer, W, H, q.i, q.j)
    requires 0 <= q.i && 1 <= q.w && q.i + q.w <= W && 0 <= q.j && 1 <= q.h && q.j + q.h <= H
    requires q.cell.normal != 0
    requires forall a, b :: InRect(q, a, b) ==> g[a][b] == q.cell
    requires q.i + q.w < W ==> g[q.i + q.w][q.j] != q.cell
    requires q.j + q.h < H ==> RowDiffers(g, q.i, q.w, q.j + q.h, q.cell, W, H)
    requires forall a, b :: 0 <= a < W && 0 <= b < H ==> g'[a][b] == if InRect(q, a, b) then EmptyCell else g[a][b]
    ensures MergeInv(g', m0, Q + [q], d, layer, W, H, q.i + q.w, q.j)
  {
    var Q' := Q + [q];
    var n := |Q|;
    assert Q'[n] == q;
    forall a, b | 0 <= a < W && 0 <= b < H && g[a][b] != q.cell
      ensures Stops(m0, Q', n, d, layer, q.cell, a, b, W, H)
    {
      if Covers(Q, d, layer, a, b) > 0 {
        var k := CoveringQuad(Q, d, layer, a, b);
        assert Q'[k] == Q[k];
      }
    }
    if q.j + q.h < H {
      var a :| q.i <= a < q.i + q.w && g[a][q.j + q.h] != q.cell;
      assert Stops(m0, Q', n, d, layer, q.cell, a, q.j + q.h, W, H);
    }
    forall a, b | 0 <= a < W && 0 <= b < H && ScanBefore(a, b, q.i, q.j) && m0[a][b].normal != 0
      ensures TakenBefore(Q', n, d, layer, a, b)
    {
      var k := CoveringQuad(Q, d, layer, a, b);
      assert Q'[k] == Q[k];
    }
    assert Greedy(m0, Q', n, W, H);
    forall a, b | 0 <= a < W && 0 <= b < H
      ensures Covers(Q', d, layer, a, b) <= 1
      ensures g'[a][b] == if Covers(Q', d, layer, a, b) == 0 then m0[a][b] else EmptyCell
      ensures InRect(q, a, b) ==> m0[a][b] == q.cell
    {
      CoversAppend(Q, q, d, layer, a, b);
    }
    forall k | 0 <= k < |Q'| && OnPlane(Q'[k], d, layer)
      ensures QuadFits(Q'[k], m0, W, H) && Greedy(m0, Q', k, W, H)
    {
      if k < n {
        assert Q'[..n] == Q;
        GreedyKept(m0, Q, Q', k, W, H);
      }
    }
  }

  /** An empty cell at the scan position needs no quad: the scan moves past it. */
  lemma MergeSkip(g: seq<seq<MaskCell>>, m0: seq<seq<MaskCell>>, Q: seq<Quad>, d: int, layer: int,
                  W: int, H: int, i: int, j: int)
    requires GridShape(g, W, H) && GridShape(m0, W, H) && 0 <= i < W && 0 <= j < H
    requires MergeInv(g, m0, Q, d, layer, W, H, i, j) && g[i][j].normal == 0
    ensures MergeInv(g, m0, Q, d, layer, W, H, i + 1, j)
  {
  }

  /** A scan past the last row leaves every cell covered exactly as the mask demands. */
  lemma {:induction false} MergeDone(g: seq<seq<MaskCell>>, m0: seq<seq<MaskCell>>, Q: seq<Quad>,
                                     d: int, layer: int, W: int, H: int)
    requires GridShape(g, W, H) && GridShape(m0, W, H)
    requires MergeInv(g, m0, Q, d, layer, W, H, 0, H)
    ensures MergedPlane(m0, Q, d, layer, W, H)
    ensures forall a, b :: 0 <= a < W && 0 <= b < H ==> g[a][b].normal == 0
  {
    forall a, b | 0 <= a < W && 0 <= b < H
      ensures Covers(Q, d, layer, a, b) == if m0[a][b].normal != 0 then 1 else 0
    {
      if Covers(Q, d, layer, a, b) > 0 {
        var k := CoveringQuad(Q, d, layer, a, b);
        assert QuadFits(Q[k], m0, W, H);
      }
    }
  }

  /** A cell under quad k of plane (d, layer) is covered at least once. */
  lemma {:induction false} CoveredByQuad(Q: seq<Quad>, d: int, layer: int, a: int, b: int, k: int)
    requires 0 <= k < |Q| && OnPlane(Q[k], d, layer) && InRect(Q[k], a, b)
    ensures Covers(Q, d, layer, a, b) >= 1
    decreases |Q|
  {
    if k < |Q| - 1 {
      assert Q[..|Q| - 1][k] == Q[k];
      CoveredByQuad(Q[..|Q| - 1], d, layer, a, b, k);
    }
  }

  /** A cell under two quads k1 < k2 of plane (d, layer) is covered at least twice. */
  lemma {:induction false} CoveredTwice(Q: seq<Quad>, d: int, layer: int, a: int, b: int, k1: int, k2: int)
    requires 0 <= k1 < k2 < |Q|
    requires OnPlane(Q[k1], d, layer) && InRect(Q[k1], a, b) && OnPlane(Q[k2], d, layer) && InRect(Q[k2], a, b)
    ensures Covers(Q, d, layer, a, b) >= 2
    decreases |Q|
  {
    var P := Q[..|Q| - 1];
    assert P[k1] == Q[k1];
    if k2 == |Q| - 1 {
      CoveredByQuad(P, d, layer, a, b, k1);
    } else {
      assert P[k2] == Q[k2];
      CoveredTwice(P, d, layer, a, b, k1, k2);
    }
  }

  /**
   * The quads of a meshed plane come in the scan order of their corners,
   * rows in order and each from left to right: an earlier quad's corner
   * is strictly before a later one's.
   */
  lemma CornersInScanOrder(m0: seq<seq<MaskCell>>, Q: seq<Quad>, d: int, layer: int, W: int, H: int, k: int, k': int)
    requires GridShape(m0, W, H) && MergedPlane(m0, Q, d, layer, W, H)
    requires 0 <= k < k' < |Q| && OnPlane(Q[k], d, layer) && OnPlane(Q[k'], d, layer)
    ensures ScanBefore(Q[k].i, Q[k].j, Q[k'].i, Q[k'].j)
  {
    var p, q := Q[k], Q[k'];
    assert QuadFits(p, m0, W, H) && Greedy(m0, Q, k, W, H);
    assert QuadFits(q, m0, W, H) && InRect(q, q.i, q.j);
    if !ScanBefore(p.i, p.j, q.i, q.j) {
      if p.i == q.i && p.j == q.j {
        CoveredTwice(Q, d, layer, q.i, q.j, k, k');
      } else {
        assert ScanBefore(q.i, q.j, p.i, p.j) && m0[q.i][q.j].normal != 0;
        var t :| 0 <= t < k && OnPlane(Q[t], d, layer) && InRect(Q[t], q.i, q.j);
        CoveredTwice(Q, d, layer, q.i, q.j, t, k');
      }
      assert false;
    }
  }

  // ----- The emitted mesh -----

  /** A mesh vertex: world position (integral in the source's floats) and packed colour. */
  datatype Vertex = Vertex(x: int, y: int, z: int, color: nat)

  /** The built mesh of one chunk column. */
  datatype ChunkMesh = ChunkMesh(
    chunkX: int, chunkZ: int,
    vertices: seq<Vertex>, indices: seq<nat>,
    boundsMin: (int, int, int), boundsMax: (int, int, int))

  /** The vertex at chunk-local point p of the chunk with corner (baseX, baseZ). */
  function ToVertex(p: (int, int, int), baseX: int, baseZ: int, color: nat): Vertex
  {
    Vertex(baseX + p.0, p.1, baseZ + p.2, color)
  }

  /** The corners p0 .. p3 of quad q, going round it from (i, j) along U(d) first. */
  function QuadVertices(q: Quad, baseX: int, baseZ: int): seq<Vertex>
  {
    var color := BlockColor(q.cell.block);
    [ToVertex(Point(q.d, q.layer, q.i, q.j), baseX, baseZ, color),
     ToVertex(Point(q.d, q.layer, q.i + q.w, q.j), baseX, baseZ, color),
     ToVertex(Point(q.d, q.layer, q.i + q.w, q.j + q.h), baseX, baseZ, color),
     ToVertex(Point(q.d, q.layer, q.i, q.j + q.h), baseX, baseZ, color)]
  }

  /** The two triangles of a quad whose first vertex is `base`, wound by the sign of the normal. */
  function QuadIndices(base: nat, normal: int): seq<nat>
  {
    if normal > 0 then [base + 0, base + 1, base + 2, base + 0, base + 2, base + 3]
    else [base + 0, base + 2, base + 1, base + 0, base + 3, base + 2]
  }

  /**
   * Both windings name two triangles over the quad's four vertices, each
   * with three distinct corners, and the negative one reverses each
   * triangle of the positive one.
   */
  lemma WindingsAreMirrored(base: nat)
    ensures forall t :: 0 <= t < 6 ==> base <= QuadIndices(base, 1)[t] < base + 4
    ensures forall t :: 0 <= t < 6 ==> base <= QuadIndices(base, -1)[t] < base + 4
    ensures forall n, t :: (n == 1 || n == -1) && 0 <= t < 2 ==>
              QuadIndices(base, n)[3 * t] != QuadIndices(base, n)[3 * t + 1] &&
              QuadIndices(base, n)[3 * t + 1] != QuadIndices(base, n)[3 * t + 2] &&
              QuadIndices(base, n)[3 * t] != QuadIndices(base, n)[3 * t + 2]
    ensures forall t :: 0 <= t < 2 ==>
              QuadIndices(base, -1)[3 * t] == QuadIndices(base, 1)[3 * t] &&
              QuadIndices(base, -1)[3 * t + 1] == QuadIndices(base, 1)[3 * t + 2] &&
              QuadIndices(base, -1)[3 * t + 2] == QuadIndices(base, 1)[3 * t + 1]
  {
  }

  /** The vertex buffer of a quad list: each quad's four corners, in order. */
  function MeshVertices(Q: seq<Quad>, baseX: int, baseZ: int): seq<Vertex>
    decreases |Q|
  {
    if |Q| == 0 then [] else MeshVertices(Q[..|Q| - 1], baseX, baseZ) + QuadVertices(Q[|Q| - 1], baseX, baseZ)
  }

  /** The index buffer of a quad list: quad k's triangles over vertices 4k .. 4k + 3. */
  function MeshIndices(Q: seq<Quad>): seq<nat>
    decreases |Q|
  {
    if |Q| == 0 then [] else MeshIndices(Q[..|Q| - 1]) + QuadIndices(4 * (|Q| - 1), Q[|Q| - 1].cell.normal)
  }

  lemma MeshAppend(Q: seq<Quad>, q: Quad, baseX: int, baseZ: int)
    ensures MeshVertices(Q + [q], baseX, baseZ) == MeshVertices(Q, baseX, baseZ) + QuadVertices(q, baseX, baseZ)
    ensures MeshIndices(Q + [q]) == MeshIndices(Q) + QuadIndices(4 * |Q|, q.cell.normal)
  {
    assert (Q + [q])[..|Q|] == Q;
  }

  /** The buffers hold 4 vertices and 6 indices per quad. */
  lemma {:induction false} MeshSizes(Q: seq<Quad>, baseX: int, baseZ: int)
    ensures |MeshVertices(Q, baseX, baseZ)| == 4 * |Q|
    ensures |MeshIndices(Q)| == 6 * |Q|
    decreases |Q|
  {
    if |Q| > 0 {
      MeshSizes(Q[..|Q| - 1], baseX, baseZ);
    }
  }

  /** Quad k owns vertices 4k .. 4k + 3. */
  lemma MeshVertexSlices(Q: seq<Quad>, baseX: int, baseZ: int)
    ensures |MeshVertices(Q, baseX, baseZ)| == 4 * |Q|
    ensures forall k :: 0 <= k < |Q| ==>
              MeshVertices(Q, baseX, baseZ)[4 * k..4 * k + 4] == QuadVertices(Q[k], baseX, baseZ)
  {
    MeshSizes(Q, baseX, baseZ);
    forall k | 0 <= k < |Q|
      ensures MeshVertices(Q, baseX, baseZ)[4 * k..4 * k + 4] == QuadVertices(Q[k], baseX, baseZ)
    {
      VertexSliceAt(Q, baseX, baseZ, k);
    }
  }

  lemma {:induction false} VertexSliceAt(Q: seq<Quad>, baseX: int, baseZ: int, k: int)
    requires 0 <= k < |Q|
    ensures |MeshVertices(Q, baseX, baseZ)| == 4 * |Q|
    ensures MeshVertices(Q, baseX, baseZ)[4 * k..4 * k + 4] == QuadVertices(Q[k], baseX, baseZ)
    decreases |Q|
  {
    var n := |Q| - 1;
    MeshSizes(Q, baseX, baseZ);
    MeshSizes(Q[..n], baseX, baseZ);
    var vs, qv := MeshVertices(Q[..n], baseX, baseZ), QuadVertices(Q[n], baseX, baseZ);
    assert MeshVertices(Q, baseX, baseZ) == vs + qv;
    if k == n {
      SliceOfBack(vs, qv);
    } else {
      VertexSliceAt(Q[..n], baseX, baseZ, k);
      assert Q[..n][k] == Q[k];
      SliceOfFront(vs, qv, 4 * k, 4 * k + 4);
    }
  }

  /** Quad k owns indices 6k .. 6k + 5. */
  lemma MeshIndexSlices(Q: seq<Quad>)
    ensures |MeshIndices(Q)| == 6 * |Q|
    ensures forall k :: 0 <= k < |Q| ==> MeshIndices(Q)[6 * k..6 * k + 6] == QuadIndices(4 * k, Q[k].cell.normal)
  {
    MeshSizes(Q, 0, 0);
    forall k | 0 <= k < |Q|
      ensures MeshIndices(Q)[6 * k..6 * k + 6] == QuadIndices(4 * k, Q[k].cell.normal)
    {
      IndexSliceAt(Q, k);
    }
  }

  lemma {:induction false} IndexSliceAt(Q: seq<Quad>, k: int)
    requires 0 <= k < |Q|
    ensures |MeshIndices(Q)| == 6 * |Q|
    ensures MeshIndices(Q)[6 * k..6 * k + 6] == QuadIndices(4 * k, Q[k].cell.normal)
    decreases |Q|
  {
    var n := |Q| - 1;
    MeshSizes(Q, 0, 0);
    MeshSizes(Q[..n], 0, 0);
    var ix, qi := MeshIndices(Q[..n]), QuadIndices(4 * n, Q[n].cell.normal);
    assert MeshIndices(Q) == ix + qi;
    if k == n {
      SliceOfBack(ix, qi);
    } else {
      IndexSliceAt(Q[..n], k);
      assert Q[..n][k] == Q[k];
      SliceOfFront(ix, qi, 6 * k, 6 * k + 6);
    }
  }

  lemma SliceOfBack<T>(front: seq<T>, back: seq<T>)
    ensures (front + back)[|front|..|front| + |back|] == back
  {
  }

  lemma SliceOfFront<T>(front: seq<T>, back: seq<T>, lo: int, hi: int)
    requires 0 <= lo <= hi <= |front|
    ensures (front + back)[lo..hi] == front[lo..hi]
  {
  }

  /** Every index names a vertex of the buffer: those of quad k lie in 4k .. 4k + 3. */
  lemma {:induction false} MeshIndicesInRange(Q: seq<Quad>, baseX: int, baseZ: int)
    ensures forall t :: 0 <= t < |MeshIndices(Q)| ==> MeshIndices(Q)[t] < |MeshVertices(Q, baseX, baseZ)|
    decreases |Q|
  {
    MeshSizes(Q, baseX, baseZ);
    if |Q| > 0 {
      var n := |Q| - 1;
      MeshIndicesInRange(Q[..n], baseX, baseZ);
      MeshSizes(Q[..n], baseX, baseZ);
      var ix, qi := MeshIndices(Q[..n]), QuadIndices(4 * n, Q[n].cell.normal);
      WindingsAreMirrored(4 * n);
      forall t | 0 <= t < |ix + qi|
        ensures (ix + qi)[t] < 4 * |Q|
      {
        if t >= |ix| {
          assert (ix + qi)[t] == qi[t - |ix|];
        }
      }
    }
  }

  /** Quad q lies on a plane of the sweep and inside the chunk's extent. */
  predicate QuadInChunk(q: Quad)
  {
    0 <= q.d < 3 && 0 <= q.layer <= Dim(q.d) &&
    0 <= q.i && 0 <= q.w && q.i + q.w <= Dim(U(q.d)) &&
    0 <= q.j && 0 <= q.h && q.j + q.h <= Dim(V(q.d))
  }

  /** Vertex t lies in the chunk's box [baseX, baseX + 16] x [0, 64] x [baseZ, baseZ + 16]. */
  predicate InChunkBox(t: Vertex, baseX: int, baseZ: int)
  {
    baseX <= t.x <= baseX + ChunkSize && 0 <= t.y <= WorldHeight && baseZ <= t.z <= baseZ + ChunkSize
  }

  /** Quads inside the chunk's extent have every corner in the chunk's box. */
  lemma QuadInBox(q: Quad, baseX: int, baseZ: int)
    requires QuadInChunk(q)
    ensures forall t :: 0 <= t < 4 ==> InChunkBox(QuadVertices(q, baseX, baseZ)[t], baseX, baseZ)
  {
  }

  /**
   * When every quad lies inside the chunk and shows a solid block, every
   * vertex lies in the chunk's box and carries an opaque, non-Air colour.
   */
  lemma {:induction false} MeshVerticesInBox(Q: seq<Quad>, baseX: int, baseZ: int)
    requires forall k :: 0 <= k < |Q| ==> QuadInChunk(Q[k]) && IsSolid(Q[k].cell.block)
    ensures forall t :: 0 <= t < |MeshVertices(Q, baseX, baseZ)| ==>
              InChunkBox(MeshVertices(Q, baseX, baseZ)[t], baseX, baseZ) &&
              MeshVertices(Q, baseX, baseZ)[t].color != 0 &&
              MeshVertices(Q, baseX, baseZ)[t].color / 0x100_0000 == 0xff
    decreases |Q|
  {
    if |Q| > 0 {
      var n := |Q| - 1;
      MeshVerticesInBox(Q[..n], baseX, baseZ);
      QuadInBox(Q[n], baseX, baseZ);
      var vs := MeshVertices(Q[..n], baseX, baseZ);
      var qv := QuadVertices(Q[n], baseX, baseZ);
      forall t | 0 <= t < |vs + qv|
        ensures InChunkBox((vs + qv)[t], baseX, baseZ) && (vs + qv)[t].color != 0 &&
                (vs + qv)[t].color / 0x100_0000 == 0xff
      {
        if t >= |vs| {
          assert (vs + qv)[t] == qv[t - |vs|];
        }
      }
    }
  }

  // ----- Planes of the whole sweep -----

  /** Plane (d, layer) of the chunk with corner (baseX, baseZ) is meshed by the quads of Q on it. */
  ghost predicate PlaneMeshed(v: View, baseX: int, baseZ: int, Q: seq<Quad>, d: int, layer: int)
    requires WellFormed(v)
  {
    MergedPlane(PlaneMask(v, baseX, baseZ, d, layer - 1), Q, d, layer, Dim(U(d)), Dim(V(d)))
  }

  /** (d, layer) is one of the planes of the sweep. */
  predicate ValidPlane(d: int, layer: int)
  {
    0 <= d < 3 && 0 <= layer <= Dim(d)
  }

  /** Plane (d', layer') comes before plane (d, layer) in the sweep. */
  predicate PlaneBefore(d': int, layer': int, d: int, layer: int)
  {
    d' < d || (d' == d && layer' < layer)
  }

  /** Quad q lies on quad q''s plane or on a plane swept before it. */
  predicate PlaneNotAfter(q: Quad, q': Quad)
  {
    PlaneBefore(q.d, q.layer, q'.d, q'.layer) || (q.d == q'.d && q.layer == q'.layer)
  }

  /**
   * Every plane of the sweep before (d, layer) is meshed, and Q holds quads
   * of those planes only, grouped by plane in sweep order.
   */
  ghost predicate SweptUpTo(v: View, baseX: int, baseZ: int, Q: seq<Quad>, d: int, layer: int)
    requires WellFormed(v)
  {
    (forall k :: 0 <= k < |Q| ==> ValidPlane(Q[k].d, Q[k].layer) && PlaneBefore(Q[k].d, Q[k].layer, d, layer)) &&
    (forall k, k' :: 0 <= k < k' < |Q| ==> PlaneNotAfter(Q[k], Q[k'])) &&
    (forall d', layer' :: ValidPlane(d', layer') && PlaneBefore(d', layer', d, layer) ==>
       PlaneMeshed(v, baseX, baseZ, Q, d', layer'))
  }

  /** Meshing plane (d, layer) on top of the planes before it extends the sweep by one plane. */
  lemma {:induction false} SweepStep(v: View, baseX: int, baseZ: int, Q0: seq<Quad>, Q: seq<Quad>, d: int, layer: int)
    requires WellFormed(v) && ValidPlane(d, layer)
    requires SweptUpTo(v, baseX, baseZ, Q0, d, layer)
    requires |Q0| <= |Q| && Q[..|Q0|] == Q0
    requires forall k :: |Q0| <= k < |Q| ==> OnPlane(Q[k], d, layer)
    requires PlaneMeshed(v, baseX, baseZ, Q, d, layer)
    ensures SweptUpTo(v, baseX, baseZ, Q, d, layer + 1)
  {
    forall k | 0 <= k < |Q|
      ensures ValidPlane(Q[k].d, Q[k].layer) && PlaneBefore(Q[k].d, Q[k].layer, d, layer + 1)
    {
      if k < |Q0| {
        assert Q[k] == Q0[k];
      }
    }
    forall k, k' | 0 <= k < k' < |Q|
      ensures PlaneNotAfter(Q[k], Q[k'])
    {
      if k < |Q0| {
        assert Q[k] == Q0[k];
        if k' < |Q0| {
          assert Q[k'] == Q0[k'];
        }
      }
    }
    forall d', layer' | ValidPlane(d', layer') && PlaneBefore(d', layer', d, layer + 1)
      ensures PlaneMeshed(v, baseX, baseZ, Q, d', layer')
    {
      if (d', layer') != (d, layer) {
        PlaneKept(v, baseX, baseZ, Q0, Q, d, layer, d', layer');
      }
    }
  }

  /** SweepStep for one earlier plane (d', layer'): its coverage and quads are unchanged. */
  lemma PlaneKept(v: View, baseX: int, baseZ: int, Q0: seq<Quad>, Q: seq<Quad>, d: int, layer: int,
                  d': int, layer': int)
    requires WellFormed(v) && (d', layer') != (d, layer)
    requires PlaneMeshed(v, baseX, baseZ, Q0, d', layer')
    requires |Q0| <= |Q| && Q[..|Q0|] == Q0
    requires forall k :: |Q0| <= k < |Q| ==> OnPlane(Q[k], d, layer)
    ensures PlaneMeshed(v, baseX, baseZ, Q, d', layer')
  {
    var m := PlaneMask(v, baseX, baseZ, d', layer' - 1);
    forall a, b | 0 <= a < Dim(U(d')) && 0 <= b < Dim(V(d'))
      ensures Covers(Q, d', layer', a, b) == Covers(Q0, d', layer', a, b)
    {
      CoversKept(Q0, Q, d', layer', a, b);
    }
    forall k | 0 <= k < |Q| && OnPlane(Q[k], d', layer')
      ensures QuadFits(Q[k], m, Dim(U(d')), Dim(V(d'))) && Greedy(m, Q, k, Dim(U(d')), Dim(V(d')))
    {
      assert k < |Q0| && Q[k] == Q0[k];
      GreedyKept(m, Q0, Q, k, Dim(U(d')), Dim(V(d')));
    }
  }

  /** The end of one axis's planes is the start of the next axis. */
  lemma AxisDone(v: View, baseX: int, baseZ: int, Q: seq<Quad>, d: int)
    requires WellFormed(v) && 0 <= d < 3
    requires SweptUpTo(v, baseX, baseZ, Q, d, Dim(d) + 1)
    ensures SweptUpTo(v, baseX, baseZ, Q, d + 1, 0)
  {
  }

  /**
   * The whole sweep done: each quad lies inside the chunk, shows a solid
   * block, and shows the mask cell of its plane at every cell it covers;
   * every face cell of every plane is covered exactly once and no other cell is.
   */
  lemma {:induction false} SweepComplete(v: View, baseX: int, baseZ: int, Q: seq<Quad>)
    requires WellFormed(v) && SweptUpTo(v, baseX, baseZ, Q, 3, 0)
    ensures forall k :: 0 <= k < |Q| ==> QuadInChunk(Q[k]) && IsSolid(Q[k].cell.block) && 1 <= Q[k].w && 1 <= Q[k].h
    ensures forall k, a, b :: 0 <= k < |Q| && InRect(Q[k], a, b) ==>
              MaskSpec(v, baseX, baseZ, Q[k].d, Q[k].layer - 1, a, b) == Q[k].cell
    ensures forall k :: 0 <= k < |Q| ==> GreedyInSweep(v, baseX, baseZ, Q, k)
    ensures forall k, k' :: 0 <= k < k' < |Q| ==> PlaneNotAfter(Q[k], Q[k'])
    ensures forall k, k' :: 0 <= k < k' < |Q| && OnPlane(Q[k'], Q[k].d, Q[k].layer) ==>
              ScanBefore(Q[k].i, Q[k].j, Q[k'].i, Q[k'].j)
    ensures forall d, layer, a, b :: 0 <= d < 3 && 0 <= layer <= Dim(d) && 0 <= a < Dim(U(d)) && 0 <= b < Dim(V(d)) ==>
              Covers(Q, d, layer, a, b) == (if MaskSpec(v, baseX, baseZ, d, layer - 1, a, b).normal != 0 then 1 else 0)
  {
    forall k, k' | 0 <= k < k' < |Q| && OnPlane(Q[k'], Q[k].d, Q[k].layer)
      ensures ScanBefore(Q[k].i, Q[k].j, Q[k'].i, Q[k'].j)
    {
      var d, layer := Q[k].d, Q[k].layer;
      PlaneOfQuad(v, baseX, baseZ, Q, k);
      var m := PlaneMask(v, baseX, baseZ, d, layer - 1);
      assert MergedPlane(m, Q, d, layer, Dim(U(d)), Dim(V(d))) by {
        assert PlaneMeshed(v, baseX, baseZ, Q, d, layer);
      }
      CornersInScanOrder(m, Q, d, layer, Dim(U(d)), Dim(V(d)), k, k');
    }
    forall k | 0 <= k < |Q|
      ensures QuadInChunk(Q[k]) && IsSolid(Q[k].cell.block) && 1 <= Q[k].w && 1 <= Q[k].h
      ensures forall a, b :: InRect(Q[k], a, b) ==> MaskSpec(v, baseX, baseZ, Q[k].d, Q[k].layer - 1, a, b) == Q[k].cell
      ensures GreedyInSweep(v, baseX, baseZ, Q, k)
    {
      QuadOfSweep(v, baseX, baseZ, Q, k);
      GreedyOfSweep(v, baseX, baseZ, Q, k);
    }
    forall d, layer, a, b | 0 <= d < 3 && 0 <= layer <= Dim(d) && 0 <= a < Dim(U(d)) && 0 <= b < Dim(V(d))
      ensures Covers(Q, d, layer, a, b) == (if MaskSpec(v, baseX, baseZ, d, layer - 1, a, b).normal != 0 then 1 else 0)
    {
      assert PlaneMeshed(v, baseX, baseZ, Q, d, layer);
    }
  }

  /**
   * Quad k of the sweep is greedy on its own plane's mask: the growth of
   * its width and of its height stopped at a differing or already merged
   * cell, or at the plane's edge.
   */
  ghost predicate GreedyInSweep(v: View, baseX: int, baseZ: int, Q: seq<Quad>, k: int)
    requires WellFormed(v) && 0 <= k < |Q| && QuadInChunk(Q[k]) && 1 <= Q[k].w && 1 <= Q[k].h
  {
    Greedy(PlaneMask(v, baseX, baseZ, Q[k].d, Q[k].layer - 1), Q, k, Dim(U(Q[k].d)), Dim(V(Q[k].d)))
  }

  /** Quad k of a full sweep lies on a plane of the sweep, fits that plane's mask and is greedy on it. */
  lemma PlaneOfQuad(v: View, baseX: int, baseZ: int, Q: seq<Quad>, k: int)
    requires WellFormed(v) && SweptUpTo(v, baseX, baseZ, Q, 3, 0) && 0 <= k < |Q|
    ensures ValidPlane(Q[k].d, Q[k].layer)
    ensures QuadFits(Q[k], PlaneMask(v, baseX, baseZ, Q[k].d, Q[k].layer - 1), Dim(U(Q[k].d)), Dim(V(Q[k].d)))
    ensures Greedy(PlaneMask(v, baseX, baseZ, Q[k].d, Q[k].layer - 1), Q, k, Dim(U(Q[k].d)), Dim(V(Q[k].d)))
  {
    assert ValidPlane(Q[k].d, Q[k].layer);
    assert PlaneMeshed(v, baseX, baseZ, Q, Q[k].d, Q[k].layer);
  }

  /** SweepComplete for quad k. */
  lemma QuadOfSweep(v: View, baseX: int, baseZ: int, Q: seq<Quad>, k: int)
    requires WellFormed(v) && SweptUpTo(v, baseX, baseZ, Q, 3, 0) && 0 <= k < |Q|
    ensures QuadInChunk(Q[k]) && IsSolid(Q[k].cell.block) && 1 <= Q[k].w && 1 <= Q[k].h
    ensures forall a, b :: InRect(Q[k], a, b) ==> MaskSpec(v, baseX, baseZ, Q[k].d, Q[k].layer - 1, a, b) == Q[k].cell
  {
    PlaneOfQuad(v, baseX, baseZ, Q, k);
    var q := Q[k];
    var m := PlaneMask(v, baseX, baseZ, q.d, q.layer - 1);
    assert m[q.i][q.j] == q.cell;
  }

  /** SweepComplete's greediness for quad k. */
  lemma GreedyOfSweep(v: View, baseX: int, baseZ: int, Q: seq<Quad>, k: int)
    requires WellFormed(v) && SweptUpTo(v, baseX, baseZ, Q, 3, 0) && 0 <= k < |Q|
    ensures QuadInChunk(Q[k]) && 1 <= Q[k].w && 1 <= Q[k].h && GreedyInSweep(v, baseX, baseZ, Q, k)
  {
    PlaneOfQuad(v, baseX, baseZ, Q, k);
  }

  // ----- The mesher's steps -----

  /** Fills the mask of the plane between layers s and s + 1 along axis d, row by row. */
  method BuildMask(world: VoxelWorld, baseX: int, baseZ: int, d: int, s: int, mask: array2<MaskCell>)
    requires world.Valid()
    modifies mask
    ensures forall a, b :: 0 <= a < mask.Length0 && 0 <= b < mask.Length1 ==>
              mask[a, b] == MaskSpec(world.view, baseX, baseZ, d, s, a, b)
  {
    for j := 0 to mask.Length1
      invariant forall a, b :: 0 <= a < mask.Length0 && 0 <= b < j ==>
                  mask[a, b] == MaskSpec(world.view, baseX, baseZ, d, s, a, b)
    {
      BuildMaskRow(world, baseX, baseZ, d, s, mask, j);
    }
  }

  /** Row j of the mask: the two samples on either side of the plane at each cell (i, j). */
  method BuildMaskRow(world: VoxelWorld, baseX: int, baseZ: int, d: int, s: int, mask: array2<MaskCell>, j: int)
    requires world.Valid() && 0 <= j < mask.Length1
    modifies mask
    ensures forall a :: 0 <= a < mask.Length0 ==> mask[a, j] == MaskSpec(world.view, baseX, baseZ, d, s, a, j)
    ensures forall a, b :: 0 <= a < mask.Length0 && 0 <= b < mask.Length1 && b != j ==> mask[a, b] == old(mask[a, b])
  {
    for i := 0 to mask.Length0
      invariant forall a :: 0 <= a < i ==> mask[a, j] == MaskSpec(world.view, baseX, baseZ, d, s, a, j)
      invariant forall a, b :: 0 <= a < mask.Length0 && 0 <= b < mask.Length1 && b != j ==> mask[a, b] == old(mask[a, b])
    {
      var cell := SampleMask(world, baseX, baseZ, d, s, i, j);
      mask[i, j] := cell;
    }
  }

  /** One mask cell: the blocks at a = x and b = x + q on either side of the plane. */
  method SampleMask(world: VoxelWorld, baseX: int, baseZ: int, d: int, s: int, i: int, j: int) returns (cell: MaskCell)
    requires world.Valid()
    ensures cell == MaskSpec(world.view, baseX, baseZ, d, s, i, j)
  {
    var pa := Point(d, s, i, j);
    var pb := Point(d, s + 1, i, j);
    var blockA := world.GetBlock(baseX + pa.0, pa.1, baseZ + pa.2);
    var blockB := world.GetBlock(baseX + pb.0, pb.1, baseZ + pb.2);
    assert blockA == Sample(world.view, baseX, baseZ, pa) && blockB == Sample(world.view, baseX, baseZ, pb);
    cell := MaskAt(blockA, blockB, IsInside(pa), IsInside(pb));
  }

  /** How far the run of cells equal to `cell` extends right of (i, j) in row j. */
  method GrowWidth(mask: array2<MaskCell>, i: int, j: int, cell: MaskCell) returns (w: int)
    requires 0 <= i < mask.Length0 && 0 <= j < mask.Length1 && mask[i, j] == cell
    ensures 1 <= w <= mask.Length0 - i
    ensures forall a :: i <= a < i + w ==> mask[a, j] == cell
    ensures i + w < mask.Length0 ==> mask[i + w, j] != cell
  {
    w := 1;
    while i + w < mask.Length0 && mask[i + w, j] == cell
      invariant 1 <= w <= mask.Length0 - i
      invariant forall a :: i <= a < i + w ==> mask[a, j] == cell
      decreases mask.Length0 - w
    {
      w := w + 1;
    }
  }

  /**
   * The rectangle grown at (i, j): GrowWidth along row j, then GrowHeight
   * down, with the cells that stopped each growth read on the mask's grid.
   */
  method GrowRect(mask: array2<MaskCell>, i: int, j: int, cell: MaskCell) returns (w: int, h: int)
    requires 0 <= i < mask.Length0 && 0 <= j < mask.Length1 && mask[i, j] == cell
    ensures 1 <= w <= mask.Length0 - i && 1 <= h <= mask.Length1 - j
    ensures forall a, b :: i <= a < i + w && j <= b < j + h ==> Grid(mask)[a][b] == cell
    ensures i + w < mask.Length0 ==> Grid(mask)[i + w][j] != cell
    ensures j + h < mask.Length1 ==> RowDiffers(Grid(mask), i, w, j + h, cell, mask.Length0, mask.Length1)
  {
    w := GrowWidth(mask, i, j, cell);
    h := GrowHeight(mask, i, j, w, cell);
    if j + h < mask.Length1 {
      GridRowBreaks(mask, i, w, j + h, cell);
    }
  }

  /**
   * How many rows from j down the run [i, i + w) stays entirely equal to
   * `cell`; the first row that breaks it (if any) holds a different cell.
   */
  method GrowHeight(mask: array2<MaskCell>, i: int, j: int, w: int, cell: MaskCell) returns (h: int)
    requires 0 <= i && 1 <= w && i + w <= mask.Length0 && 0 <= j < mask.Length1
    requires forall a :: i <= a < i + w ==> mask[a, j] == cell
    ensures 1 <= h <= mask.Length1 - j
    ensures forall a, b :: i <= a < i + w && j <= b < j + h ==> mask[a, b] == cell
    ensures j + h < mask.Length1 ==> RowBreaks(mask, i, w, j + h, cell)
  {
    h := 1;
    var done := false;
    while j + h < mask.Length1 && !done
      invariant 1 <= h <= mask.Length1 - j
      invariant forall a, b :: i <= a < i + w && j <= b < j + h ==> mask[a, b] == cell
      invariant done ==> j + h < mask.Length1 && RowBreaks(mask, i, w, j + h, cell)
      decreases mask.Length1 - h, if done then 0 else 1
    {
      var row := j + h;
      for k := 0 to w
        invariant !done
        invariant forall a :: i <= a < i + k ==> mask[a, row] == cell
      {
        if mask[i + k, row] != cell {
          done := true;
          break;
        }
      }
      if !done {
        h := h + 1;
      }
    }
  }

  /** Some cell of row b in the run [i, i + w) differs from `cell`. */
  ghost predicate RowBreaks(mask: array2<MaskCell>, i: int, w: int, b: int, cell: MaskCell)
    reads mask
    requires 0 <= b < mask.Length1
  {
    exists a :: i <= a < i + w && 0 <= a < mask.Length0 && mask[a, b] != cell
  }

  /** Zeroes the w x h rectangle of the mask at (i, j). */
  method ClearRect(mask: array2<MaskCell>, i: int, j: int, w: int, h: int)
    requires 0 <= i && 0 <= w && i + w <= mask.Length0 && 0 <= j && 0 <= h && j + h <= mask.Length1
    modifies mask
    ensures forall a, b :: 0 <= a < mask.Length0 && 0 <= b < mask.Length1 ==>
              mask[a, b] == if i <= a < i + w && j <= b < j + h then EmptyCell else old(mask[a, b])
  {
    for l := 0 to h
      invariant forall a, b :: 0 <= a < mask.Length0 && 0 <= b < mask.Length1 ==>
                  mask[a, b] == if i <= a < i + w && j <= b < j + l then EmptyCell else old(mask[a, b])
    {
      for k := 0 to w
        invariant forall a, b :: 0 <= a < mask.Length0 && 0 <= b < mask.Length1 ==>
                    mask[a, b] == if i <= a < i + w && (j <= b < j + l || (b == j + l && a < i + k))
                                  then EmptyCell else old(mask[a, b])
      {
        mask[i + k, j + l] := EmptyCell;
      }
    }
  }

  /** Appends quad q's four corners and its six indices, wound by the sign of its normal. */
  method EmitQuad(q: Quad, baseX: int, baseZ: int, vertices: seq<Vertex>, indices: seq<nat>)
    returns (vertices': seq<Vertex>, indices': seq<nat>)
    ensures vertices' == vertices + QuadVertices(q, baseX, baseZ)
    ensures indices' == indices + QuadIndices(|vertices|, q.cell.normal)
  {
    var p0 := Point(q.d, q.layer, q.i, q.j);
    var p1 := Point(q.d, q.layer, q.i + q.w, q.j);
    var p2 := Point(q.d, q.layer, q.i + q.w, q.j + q.h);
    var p3 := Point(q.d, q.layer, q.i, q.j + q.h);
    var color := BlockColor(q.cell.block);
    var baseIndex := |vertices|;
    vertices' := vertices + [ToVertex(p0, baseX, baseZ, color), ToVertex(p1, baseX, baseZ, color),
                             ToVertex(p2, baseX, baseZ, color), ToVertex(p3, baseX, baseZ, color)];
    if q.cell.normal > 0 {
      indices' := indices + [baseIndex + 0, baseIndex + 1, baseIndex + 2, baseIndex + 0, baseIndex + 2, baseIndex + 3];
    } else {
      indices' := indices + [baseIndex + 0, baseIndex + 2, baseIndex + 1, baseIndex + 0, baseIndex + 3, baseIndex + 2];
    }
  }

  /**
   * The merge at scan position (i, j) of plane (d, layer): an empty cell is
   * skipped; otherwise the maximal rectangle of equal cells is grown, its
   * quad emitted and its cells zeroed. Returns how far the scan advances.
   */
  method MergeCell(mask: array2<MaskCell>, ghost m0: seq<seq<MaskCell>>, d: int, layer: int, baseX: int, baseZ: int,
                   i: int, j: int, vertices: seq<Vertex>, indices: seq<nat>, ghost Q: seq<Quad>)
    returns (step: int, vertices': seq<Vertex>, indices': seq<nat>, ghost Q': seq<Quad>)
    requires 0 <= i < mask.Length0 && 0 <= j < mask.Length1 && GridShape(m0, mask.Length0, mask.Length1)
    requires MergeInv(Grid(mask), m0, Q, d, layer, mask.Length0, mask.Length1, i, j)
    requires vertices == MeshVertices(Q, baseX, baseZ) && indices == MeshIndices(Q)
    modifies mask
    ensures 1 <= step <= mask.Length0 - i
    ensures MergeInv(Grid(mask), m0, Q', d, layer, mask.Length0, mask.Length1, i + step, j)
    ensures vertices' == MeshVertices(Q', baseX, baseZ) && indices' == MeshIndices(Q')
    ensures |Q| <= |Q'| && Q'[..|Q|] == Q && forall k :: |Q| <= k < |Q'| ==> OnPlane(Q'[k], d, layer)
  {
    var cell := mask[i, j];
    if cell.normal == 0 {
      MergeSkip(Grid(mask), m0, Q, d, layer, mask.Length0, mask.Length1, i, j);
      return 1, vertices, indices, Q;
    }
    step, vertices', indices', Q' := MergeRect(mask, m0, d, layer, baseX, baseZ, i, j, vertices, indices, Q);
  }

  /**
   * MergeCell on a face cell: the rectangle of cells equal to it is grown
   * right along row j, then down row by row, its quad emitted and its cells
   * zeroed.
   */
  method MergeRect(mask: array2<MaskCell>, ghost m0: seq<seq<MaskCell>>, d: int, layer: int, baseX: int, baseZ: int,
                   i: int, j: int, vertices: seq<Vertex>, indices: seq<nat>, ghost Q: seq<Quad>)
    returns (step: int, vertices': seq<Vertex>, indices': seq<nat>, ghost Q': seq<Quad>)
    requires 0 <= i < mask.Length0 && 0 <= j < mask.Length1 && GridShape(m0, mask.Length0, mask.Length1)
    requires MergeInv(Grid(mask), m0, Q, d, layer, mask.Length0, mask.Length1, i, j) && mask[i, j].normal != 0
    requires vertices == MeshVertices(Q, baseX, baseZ) && indices == MeshIndices(Q)
    modifies mask
    ensures 1 <= step <= mask.Length0 - i
    ensures MergeInv(Grid(mask), m0, Q', d, layer, mask.Length0, mask.Length1, i + step, j)
    ensures vertices' == MeshVertices(Q', baseX, baseZ) && indices' == MeshIndices(Q')
    ensures |Q'| == |Q| + 1 && Q'[..|Q|] == Q && OnPlane(Q'[|Q|], d, layer)
  {
    ghost var g := Grid(mask);
    var cell := mask[i, j];
    var w, h;
    w, h, vertices', indices' := TakeRect(mask, d, layer, baseX, baseZ, i, j, cell, vertices, indices);
    ghost var q := Quad(d, layer, i, j, w, h, cell);
    MergeStep(g, Grid(mask), m0, Q, q, d, layer, mask.Length0, mask.Length1);
    MeshSizes(Q, baseX, baseZ);
    MeshAppend(Q, q, baseX, baseZ);
    Q' := Q + [q];
    step := w;
  }

  /**
   * The array work of MergeRect: the rectangle of cells equal to `cell` is
   * grown from (i, j), its quad emitted and its cells zeroed. Stated on the
   * mask grid before and after.
   */
  method TakeRect(mask: array2<MaskCell>, d: int, layer: int, baseX: int, baseZ: int, i: int, j: int, cell: MaskCell,
                  vertices: seq<Vertex>, indices: seq<nat>)
    returns (w: int, h: int, vertices': seq<Vertex>, indices': seq<nat>)
    requires 0 <= i < mask.Length0 && 0 <= j < mask.Length1 && mask[i, j] == cell
    modifies mask
    ensures 1 <= w <= mask.Length0 - i && 1 <= h <= mask.Length1 - j
    ensures forall a, b :: i <= a < i + w && j <= b < j + h ==> old(Grid(mask))[a][b] == cell
    ensures i + w < mask.Length0 ==> old(Grid(mask))[i + w][j] != cell
    ensures j + h < mask.Length1 ==> RowDiffers(old(Grid(mask)), i, w, j + h, cell, mask.Length0, mask.Length1)
    ensures forall a, b :: 0 <= a < mask.Length0 && 0 <= b < mask.Length1 ==>
              Grid(mask)[a][b] == if i <= a < i + w && j <= b < j + h then EmptyCell else old(Grid(mask))[a][b]
    ensures vertices' == vertices + QuadVertices(Quad(d, layer, i, j, w, h, cell), baseX, baseZ)
    ensures indices' == indices + QuadIndices(|vertices|, cell.normal)
  {
    w, h := GrowRect(mask, i, j, cell);
    vertices', indices' := EmitQuad(Quad(d, layer, i, j, w, h, cell), baseX, baseZ, vertices, indices);
    ClearRect(mask, i, j, w, h);
  }

  /**
   * The greedy merge of one plane, whose mask holds m0: rows in order, each
   * scanned left to right. Afterwards the plane is meshed by the new quads
   * and the mask is all empty.
   */
  method MergePlane(mask: array2<MaskCell>, ghost m0: seq<seq<MaskCell>>, d: int, layer: int, baseX: int, baseZ: int,
                    vertices: seq<Vertex>, indices: seq<nat>, ghost Q: seq<Quad>)
    returns (vertices': seq<Vertex>, indices': seq<nat>, ghost Q': seq<Quad>)
    requires GridShape(m0, mask.Length0, mask.Length1)
    requires forall a, b :: 0 <= a < mask.Length0 && 0 <= b < mask.Length1 ==> mask[a, b] == m0[a][b]
    requires forall k :: 0 <= k < |Q| ==> !OnPlane(Q[k], d, layer)
    requires vertices == MeshVertices(Q, baseX, baseZ) && indices == MeshIndices(Q)
    modifies mask
    ensures MergedPlane(m0, Q', d, layer, mask.Length0, mask.Length1)
    ensures forall a, b :: 0 <= a < mask.Length0 && 0 <= b < mask.Length1 ==> mask[a, b].normal == 0
    ensures vertices' == MeshVertices(Q', baseX, baseZ) && indices' == MeshIndices(Q')
    ensures |Q| <= |Q'| && Q'[..|Q|] == Q && forall k :: |Q| <= k < |Q'| ==> OnPlane(Q'[k], d, layer)
  {
    var W, H := mask.Length0, mask.Length1;
    MergeStart(Grid(mask), m0, Q, d, layer, W, H);
    vertices', indices', Q' := vertices, indices, Q;
    for j := 0 to H
      invariant MergeInv(Grid(mask), m0, Q', d, layer, W, H, 0, j)
      invariant vertices' == MeshVertices(Q', baseX, baseZ) && indices' == MeshIndices(Q')
      invariant |Q| <= |Q'| && Q'[..|Q|] == Q && forall k :: |Q| <= k < |Q'| ==> OnPlane(Q'[k], d, layer)
    {
      vertices', indices', Q' := MergeRow(mask, m0, d, layer, baseX, baseZ, j, vertices', indices', Q', Q);
    }
    MergeDone(Grid(mask), m0, Q', d, layer, W, H);
  }

  /** One row of MergePlane: the scan of row j from the left edge to the right. */
  method MergeRow(mask: array2<MaskCell>, ghost m0: seq<seq<MaskCell>>, d: int, layer: int, baseX: int, baseZ: int,
                  j: int, vertices: seq<Vertex>, indices: seq<nat>, ghost Q: seq<Quad>, ghost Q0: seq<Quad>)
    returns (vertices': seq<Vertex>, indices': seq<nat>, ghost Q': seq<Quad>)
    requires 0 <= j < mask.Length1 && GridShape(m0, mask.Length0, mask.Length1)
    requires MergeInv(Grid(mask), m0, Q, d, layer, mask.Length0, mask.Length1, 0, j)
    requires vertices == MeshVertices(Q, baseX, baseZ) && indices == MeshIndices(Q)
    requires |Q0| <= |Q| && Q[..|Q0|] == Q0 && forall k :: |Q0| <= k < |Q| ==> OnPlane(Q[k], d, layer)
    modifies mask
    ensures MergeInv(Grid(mask), m0, Q', d, layer, mask.Length0, mask.Length1, 0, j + 1)
    ensures vertices' == MeshVertices(Q', baseX, baseZ) && indices' == MeshIndices(Q')
    ensures |Q0| <= |Q'| && Q'[..|Q0|] == Q0 && forall k :: |Q0| <= k < |Q'| ==> OnPlane(Q'[k], d, layer)
  {
    vertices', indices', Q' := vertices, indices, Q;
    var i := 0;
    while i < mask.Length0
      invariant 0 <= i <= mask.Length0
      invariant MergeInv(Grid(mask), m0, Q', d, layer, mask.Length0, mask.Length1, i, j)
      invariant vertices' == MeshVertices(Q', baseX, baseZ) && indices' == MeshIndices(Q')
      invariant |Q0| <= |Q'| && Q'[..|Q0|] == Q0 && forall k :: |Q0| <= k < |Q'| ==> OnPlane(Q'[k], d, layer)
      decreases mask.Length0 - i
    {
      ghost var before := Q';
      var step;
      step, vertices', indices', Q' := MergeCell(mask, m0, d, layer, baseX, baseZ, i, j, vertices', indices', Q');
      PrefixTransitive(Q0, before, Q', d, layer);
      i := i + step;
    }
  }

  /** Extending a quad list whose tail lies on one plane by more quads of that plane. */
  lemma PrefixTransitive(Q0: seq<Quad>, Q1: seq<Quad>, Q2: seq<Quad>, d: int, layer: int)
    requires |Q0| <= |Q1| && Q1[..|Q0|] == Q0 && forall k :: |Q0| <= k < |Q1| ==> OnPlane(Q1[k], d, layer)
    requires |Q1| <= |Q2| && Q2[..|Q1|] == Q1 && forall k :: |Q1| <= k < |Q2| ==> OnPlane(Q2[k], d, layer)
    ensures |Q0| <= |Q2| && Q2[..|Q0|] == Q0 && forall k :: |Q0| <= k < |Q2| ==> OnPlane(Q2[k], d, layer)
  {
    assert Q2[..|Q0|] == Q2[..|Q1|][..|Q0|];
    forall k | |Q0| <= k < |Q1|
      ensures OnPlane(Q2[k], d, layer)
    {
      assert Q2[k] == Q2[..|Q1|][k];
    }
  }

  /**
   * The planes of axis d, from layer 0 (the face between the neighbour
   * below and the chunk) to layer Dim(d), each masked and merged in turn.
   */
  method MeshAxis(world: VoxelWorld, baseX: int, baseZ: int, d: int,
                  vertices: seq<Vertex>, indices: seq<nat>, ghost Q: seq<Quad>)
    returns (vertices': seq<Vertex>, indices': seq<nat>, ghost Q': seq<Quad>)
    requires world.Valid() && 0 <= d < 3
    requires SweptUpTo(world.view, baseX, baseZ, Q, d, 0)
    requires vertices == MeshVertices(Q, baseX, baseZ) && indices == MeshIndices(Q)
    ensures SweptUpTo(world.view, baseX, baseZ, Q', d + 1, 0)
    ensures vertices' == MeshVertices(Q', baseX, baseZ) && indices' == MeshIndices(Q')
  {
    var u := (d + 1) % 3;
    var v := (d + 2) % 3;
    var mask := new MaskCell[Dim(u), Dim(v)]((_, _) => EmptyCell);
    vertices', indices', Q' := vertices, indices, Q;
    var s := -1;
    while s < Dim(d)
      invariant -1 <= s <= Dim(d)
      invariant SweptUpTo(world.view, baseX, baseZ, Q', d, s + 1)
      invariant vertices' == MeshVertices(Q', baseX, baseZ) && indices' == MeshIndices(Q')
      decreases Dim(d) - s
    {
      BuildMask(world, baseX, baseZ, d, s, mask);
      s := s + 1;
      vertices', indices', Q' := MeshPlane(world, mask, baseX, baseZ, d, s, vertices', indices', Q');
    }
    AxisDone(world.view, baseX, baseZ, Q', d);
  }

  /** MeshAxis's step: merging the freshly built mask of plane (d, layer). */
  method MeshPlane(world: VoxelWorld, mask: array2<MaskCell>, baseX: int, baseZ: int, d: int, layer: int,
                   vertices: seq<Vertex>, indices: seq<nat>, ghost Q: seq<Quad>)
    returns (vertices': seq<Vertex>, indices': seq<nat>, ghost Q': seq<Quad>)
    requires world.Valid() && 0 <= d < 3 && 0 <= layer <= Dim(d)
    requires mask.Length0 == Dim(U(d)) && mask.Length1 == Dim(V(d))
    requires forall a, b :: 0 <= a < mask.Length0 && 0 <= b < mask.Length1 ==>
               mask[a, b] == MaskSpec(world.view, baseX, baseZ, d, layer - 1, a, b)
    requires SweptUpTo(world.view, baseX, baseZ, Q, d, layer)
    requires vertices == MeshVertices(Q, baseX, baseZ) && indices == MeshIndices(Q)
    modifies mask
    ensures SweptUpTo(world.view, baseX, baseZ, Q', d, layer + 1)
    ensures vertices' == MeshVertices(Q', baseX, baseZ) && indices' == MeshIndices(Q')
  {
    ghost var m0 := PlaneMask(world.view, baseX, baseZ, d, layer - 1);
    vertices', indices', Q' := MergePlane(mask, m0, d, layer, baseX, baseZ, vertices, indices, Q);
    SweepStep(world.view, baseX, baseZ, Q, Q', d, layer);
  }

  /** std::min: the second argument only when it is smaller. */
  function Min(a: int, b: int): int
  {
    if b < a then b else a
  }

  /** std::max: the second argument only when the first is smaller. */
  function Max(a: int, b: int): int
  {
    if a < b then b else a
  }

  /** lo is the componentwise minimum of the vertex positions: a lower bound attained on each axis. */
  ghost predicate IsMinCorner(lo: (int, int, int), vs: seq<Vertex>)
  {
    (forall k :: 0 <= k < |vs| ==> lo.0 <= vs[k].x && lo.1 <= vs[k].y && lo.2 <= vs[k].z) &&
    (exists k :: 0 <= k < |vs| && vs[k].x == lo.0) &&
    (exists k :: 0 <= k < |vs| && vs[k].y == lo.1) &&
    (exists k :: 0 <= k < |vs| && vs[k].z == lo.2)
  }

  /** hi is the componentwise maximum of the vertex positions: an upper bound attained on each axis. */
  ghost predicate IsMaxCorner(hi: (int, int, int), vs: seq<Vertex>)
  {
    (forall k :: 0 <= k < |vs| ==> vs[k].x <= hi.0 && vs[k].y <= hi.1 && vs[k].z <= hi.2) &&
    (exists k :: 0 <= k < |vs| && vs[k].x == hi.0) &&
    (exists k :: 0 <= k < |vs| && vs[k].y == hi.1) &&
    (exists k :: 0 <= k < |vs| && vs[k].z == hi.2)
  }

  /**
   * The mesh bounds: the whole chunk box when nothing was emitted, the
   * componentwise minimum and maximum over the vertices otherwise.
   */
  method ComputeBounds(vertices: seq<Vertex>, baseX: int, baseZ: int) returns (lo: (int, int, int), hi: (int, int, int))
    ensures |vertices| == 0 ==>
              lo == (baseX, 0, baseZ) && hi == (baseX + ChunkSize, WorldHeight, baseZ + ChunkSize)
    ensures |vertices| > 0 ==> IsMinCorner(lo, vertices) && IsMaxCorner(hi, vertices)
  {
    if |vertices| == 0 {
      return (baseX, 0, baseZ), (baseX + ChunkSize, WorldHeight, baseZ + ChunkSize);
    }
    lo := (vertices[0].x, vertices[0].y, vertices[0].z);
    hi := lo;
    ghost var lx, ly, lz, hx, hy, hz := 0, 0, 0, 0, 0, 0;
    for k := 0 to |vertices|
      invariant forall t :: 0 <= t < k ==>
                  lo.0 <= vertices[t].x && lo.1 <= vertices[t].y && lo.2 <= vertices[t].z &&
                  vertices[t].x <= hi.0 && vertices[t].y <= hi.1 && vertices[t].z <= hi.2
      invariant 0 <= lx < |vertices| && vertices[lx].x == lo.0
      invariant 0 <= ly < |vertices| && vertices[ly].y == lo.1
      invariant 0 <= lz < |vertices| && vertices[lz].z == lo.2
      invariant 0 <= hx < |vertices| && vertices[hx].x == hi.0
      invariant 0 <= hy < |vertices| && vertices[hy].y == hi.1
      invariant 0 <= hz < |vertices| && vertices[hz].z == hi.2
    {
      var vertex := vertices[k];
      if vertex.x < lo.0 { lx := k; }
      if vertex.y < lo.1 { ly := k; }
      if vertex.z < lo.2 { lz := k; }
      if hi.0 < vertex.x { hx := k; }
      if hi.1 < vertex.y { hy := k; }
      if hi.2 < vertex.z { hz := k; }
      lo := (Min(lo.0, vertex.x), Min(lo.1, vertex.y), Min(lo.2, vertex.z));
      hi := (Max(hi.0, vertex.x), Max(hi.1, vertex.y), Max(hi.2, vertex.z));
    }
  }

  /**
   * Builds the mesh of chunk column (chunkX, chunkZ) from the world's blocks.
   * The ghost quads are the merged rectangles in emission order: the
   * buffers are exactly their corners and triangles, each one shows one
   * solid face of the plane mask over its whole extent, starts at the first
   * face cell in scan order that no earlier quad took, and is as wide and
   * as tall as the greedy growth allows; the quads come plane by plane in
   * sweep order (axis x, y, z, layers upward) and, within a plane, in the
   * scan order of their corners; every face of every plane is covered by
   * exactly one quad.
   */
  method BuildChunkMesh(world: VoxelWorld, chunkX: int, chunkZ: int) returns (mesh: ChunkMesh, ghost quads: seq<Quad>)
    requires world.Valid()
    ensures mesh.chunkX == chunkX && mesh.chunkZ == chunkZ
    ensures mesh.vertices == MeshVertices(quads, ChunkBase(chunkX), ChunkBase(chunkZ))
    ensures mesh.indices == MeshIndices(quads)
    ensures |mesh.vertices| == 4 * |quads| && |mesh.indices| == 6 * |quads|
    ensures forall t :: 0 <= t < |mesh.indices| ==> mesh.indices[t] < |mesh.vertices|
    ensures forall t :: 0 <= t < |mesh.vertices| ==>
              InChunkBox(mesh.vertices[t], ChunkBase(chunkX), ChunkBase(chunkZ)) &&
              mesh.vertices[t].color != 0
    ensures forall k :: 0 <= k < |quads| ==>
              QuadInChunk(quads[k]) && IsSolid(quads[k].cell.block) && 1 <= quads[k].w && 1 <= quads[k].h
    ensures forall k, a, b :: 0 <= k < |quads| && InRect(quads[k], a, b) ==>
              MaskSpec(world.view, ChunkBase(chunkX), ChunkBase(chunkZ), quads[k].d, quads[k].layer - 1, a, b) ==
              quads[k].cell
    ensures forall k :: 0 <= k < |quads| ==> GreedyInSweep(world.view, ChunkBase(chunkX), ChunkBase(chunkZ), quads, k)
    ensures forall k, k' :: 0 <= k < k' < |quads| ==> PlaneNotAfter(quads[k], quads[k'])
    ensures forall k, k' :: 0 <= k < k' < |quads| && OnPlane(quads[k'], quads[k].d, quads[k].layer) ==>
              ScanBefore(quads[k].i, quads[k].j, quads[k'].i, quads[k'].j)
    ensures forall d, layer, a, b :: 0 <= d < 3 && 0 <= layer <= Dim(d) && 0 <= a < Dim(U(d)) && 0 <= b < Dim(V(d)) ==>
              Covers(quads, d, layer, a, b) ==
              (if MaskSpec(world.view, ChunkBase(chunkX), ChunkBase(chunkZ), d, layer - 1, a, b).normal != 0 then 1 else 0)
    ensures |mesh.vertices| == 0 ==>
              mesh.boundsMin == (ChunkBase(chunkX), 0, ChunkBase(chunkZ)) &&
              mesh.boundsMax == (ChunkBase(chunkX) + ChunkSize, WorldHeight, ChunkBase(chunkZ) + ChunkSize)
    ensures |mesh.vertices| > 0 ==> IsMinCorner(mesh.boundsMin, mesh.vertices) && IsMaxCorner(mesh.boundsMax, mesh.vertices)
  {
    var baseX := ChunkBase(chunkX);
    var baseZ := ChunkBase(chunkZ);
    var vertices, indices;
    vertices, indices, quads := SweepChunk(world, baseX, baseZ);
    SweepComplete(world.view, baseX, baseZ, quads);
    MeshSizes(quads, baseX, baseZ);
    MeshIndicesInRange(quads, baseX, baseZ);
    MeshVerticesInBox(quads, baseX, baseZ);
    var lo, hi := ComputeBounds(vertices, baseX, baseZ);
    mesh := ChunkMesh(chunkX, chunkZ, vertices, indices, lo, hi);
  }

  /** The three axes of BuildChunkMesh, x then y then z. */
  method SweepChunk(world: VoxelWorld, baseX: int, baseZ: int)
    returns (vertices: seq<Vertex>, indices: seq<nat>, ghost quads: seq<Quad>)
    requires world.Valid()
    ensures SweptUpTo(world.view, baseX, baseZ, quads, 3, 0)
    ensures vertices == MeshVertices(quads, baseX, baseZ) && indices == MeshIndices(quads)
  {
    vertices, indices, quads := [], [], [];
    for d := 0 to 3
      invariant SweptUpTo(world.view, baseX, baseZ, quads, d, 0)
      invariant vertices == MeshVertices(quads, baseX, baseZ) && indices == MeshIndices(quads)
    {
      vertices, indices, quads := MeshAxis(world, baseX, baseZ, d, vertices, indices, quads);
    }
  }
}
