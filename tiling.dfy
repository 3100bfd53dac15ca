/** The block decomposition walked by the processing loop of ImageProcess.

    The loop steps the row origin i over 0, B, 2B, ... while i < H and, inside,
    the column origin j over 0, B, 2B, ... while j < W.  Each block is B x B,
    clipped at the right and bottom edges of the W x H raster.  RowFrom and
    RowsFrom enumerate the blocks in exactly that order; the lemmas below state
    what the enumeration guarantees: every block stays inside the raster, the
    blocks partition the grid, there are ceil(W/B) * ceil(H/B) of them, and they
    come in row-major order. */
module Tiling {
  import opened Arith

  /** A block of the raster grid: column origin x (j in the loop), row origin y
      (i in the loop), width w (nXBK) and height h (nYBK). */
  datatype Tile = Tile(x: nat, y: nat, w: nat, h: nat)

  /** Extent of the block that starts at `origin` on an axis of length `size`:
      B, unless that would run past the edge, in which case what remains. */
  function Extent(origin: nat, size: nat, B: nat): (e: nat)
    requires origin < size && B > 0
    ensures 1 <= e <= B && origin + e <= size
    ensures e == B <==> origin + B <= size
    ensures e < B ==> e == size - origin
  {
    if origin + B > size then size - origin else B
  }

  /** The blocks of the row with origin y, from column origin x to the right edge. */
  function RowFrom(x: nat, y: nat, W: nat, H: nat, B: nat): (row: seq<Tile>)
    requires B > 0 && y < H
    decreases W - x
  {
    if x >= W then []
    else [Tile(x, y, Extent(x, W, B), Extent(y, H, B))] + RowFrom(x + B, y, W, H, B)
  }

  /** The blocks of the rows with origin y, y + B, ... down to the bottom edge. */
  function RowsFrom(y: nat, W: nat, H: nat, B: nat): (rows: seq<Tile>)
    requires B > 0
    decreases H - y
  {
    if y >= H then []
    else RowFrom(0, y, W, H, B) + RowsFrom(y + B, W, H, B)
  }

  /** The blocks the loop visits, in the order it visits them. */
  function Tiles(W: nat, H: nat, B: nat): (tiles: seq<Tile>)
    requires B > 0
  {
    RowsFrom(0, W, H, B)
  }

  /** A block whose origin lies on the B-grid inside the raster and whose
      extent is the clipped block size at that origin. */
  predicate WellPlaced(t: Tile, W: nat, H: nat, B: nat)
    requires B > 0
  {
    && t.x < W && t.y < H
    && t.x % B == 0 && t.y % B == 0
    && t.w == Extent(t.x, W, B) && t.h == Extent(t.y, H, B)
  }

  /** Block t contains pixel (px, py). */
  predicate Covers(t: Tile, px: nat, py: nat)
  {
    t.x <= px < t.x + t.w && t.y <= py < t.y + t.h
  }

  /** Row-major order of block origins: upper rows first, then left to right. */
  predicate Before(a: Tile, b: Tile)
  {
    a.y < b.y || (a.y == b.y && a.x < b.x)
  }

  // ---------------------------------------------------------------------------
  // Which blocks are enumerated

  /** The row enumeration holds exactly the well-placed blocks of row y from x on. */
  lemma {:induction false} RowFromMembers(x: nat, y: nat, W: nat, H: nat, B: nat)
    requires B > 0 && y < H && x % B == 0
    ensures forall t :: t in RowFrom(x, y, W, H, B) <==>
      (t.y == y && x <= t.x < W && t.x % B == 0 && t.w == Extent(t.x, W, B) && t.h == Extent(y, H, B))
    decreases W - x
  {
    if x < W {
      AlignedStep(x, B);
      RowFromMembers(x + B, y, W, H, B);
      forall t: Tile | t.y == y && x < t.x < W && t.x % B == 0
        ensures x + B <= t.x
      {
        AlignedGap(t.x, x, B);
      }
    }
  }

  /** The enumeration of the rows from y on holds exactly their well-placed blocks. */
  lemma {:induction false} RowsFromMembers(y: nat, W: nat, H: nat, B: nat)
    requires B > 0 && y % B == 0
    ensures forall t :: t in RowsFrom(y, W, H, B) <==> (y <= t.y && WellPlaced(t, W, H, B))
    decreases H - y
  {
    if y < H {
      AlignedStep(y, B);
      RowsFromMembers(y + B, W, H, B);
      RowFromMembers(0, y, W, H, B);
      forall t: Tile | y < t.y < H && t.y % B == 0
        ensures y + B <= t.y
      {
        AlignedGap(t.y, y, B);
      }
    }
  }

  /** A block is visited if and only if it is well placed: its origin lies on the
      B-grid inside the raster and its size is the block size clipped at the edges. */
  lemma TilesMembers(W: nat, H: nat, B: nat)
    requires B > 0
    ensures forall t :: t in Tiles(W, H, B) <==> WellPlaced(t, W, H, B)
  {
    RowsFromMembers(0, W, H, B);
  }

  /** No visited block leaves the raster, and none is empty or larger than B x B. */
  lemma TilesInBounds(W: nat, H: nat, B: nat)
    requires B > 0
    ensures forall t :: t in Tiles(W, H, B) ==>
      1 <= t.w <= B && 1 <= t.h <= B && t.x + t.w <= W && t.y + t.h <= H
  {
    TilesMembers(W, H, B);
  }

  /** Blocks away from the right and bottom edges are exactly B x B; the last
      column is W - x wide, which is W mod B when B does not divide W, and the
      last row likewise H - y high, which is H mod B when B does not divide H. */
  lemma TilesShape(W: nat, H: nat, B: nat)
    requires B > 0
    ensures forall t :: t in Tiles(W, H, B) ==>
      && (t.x + B <= W ==> t.w == B)
      && (t.x + B > W ==> t.w == W - t.x && (W % B != 0 ==> t.w == W % B))
      && (t.y + B <= H ==> t.h == B)
      && (t.y + B > H ==> t.h == H - t.y && (H % B != 0 ==> t.h == H % B))
  {
    TilesMembers(W, H, B);
    forall t | t in Tiles(W, H, B)
      ensures t.x + B > W ==> t.w == W - t.x && (W % B != 0 ==> t.w == W % B)
      ensures t.y + B > H ==> t.h == H - t.y && (H % B != 0 ==> t.h == H % B)
    {
      if t.x + B > W { LastExtent(t.x, W, B); }
      if t.y + B > H { LastExtent(t.y, H, B); }
    }
  }

  // ---------------------------------------------------------------------------
  // Order

  /** Within a row the blocks are visited left to right, all on that row. */
  lemma {:induction false} RowFromOrdered(x: nat, y: nat, W: nat, H: nat, B: nat)
    requires B > 0 && y < H && x % B == 0
    ensures forall k :: 0 <= k < |RowFrom(x, y, W, H, B)| ==> RowFrom(x, y, W, H, B)[k].y == y
    ensures forall k1, k2 :: 0 <= k1 < k2 < |RowFrom(x, y, W, H, B)| ==>
      RowFrom(x, y, W, H, B)[k1].x < RowFrom(x, y, W, H, B)[k2].x
    decreases W - x
  {
    if x < W {
      var r := RowFrom(x, y, W, H, B);
      var rest := RowFrom(x + B, y, W, H, B);
      AlignedStep(x, B);
      RowFromOrdered(x + B, y, W, H, B);
      RowFromMembers(x + B, y, W, H, B);
      assert r == [r[0]] + rest;
      forall k1, k2 | 0 <= k1 < k2 < |r|
        ensures r[k1].x < r[k2].x
      {
        assert r[k2] == rest[k2 - 1] && r[k2] in rest;
        if k1 > 0 {
          assert r[k1] == rest[k1 - 1];
        }
      }
    }
  }

  /** The rows from y on are visited top to bottom, each left to right. */
  lemma {:induction false} RowsFromOrdered(y: nat, W: nat, H: nat, B: nat)
    requires B > 0 && y % B == 0
    ensures forall k1, k2 :: 0 <= k1 < k2 < |RowsFrom(y, W, H, B)| ==>
      Before(RowsFrom(y, W, H, B)[k1], RowsFrom(y, W, H, B)[k2])
    decreases H - y
  {
    if y < H {
      var row := RowFrom(0, y, W, H, B);
      var rest := RowsFrom(y + B, W, H, B);
      var all := RowsFrom(y, W, H, B);
      assert all == row + rest;
      AlignedStep(y, B);
      RowsFromOrdered(y + B, W, H, B);
      RowsFromMembers(y + B, W, H, B);
      RowFromOrdered(0, y, W, H, B);
      forall k1, k2 | 0 <= k1 < k2 < |all|
        ensures Before(all[k1], all[k2])
      {
        if k2 < |row| {
          assert all[k1] == row[k1] && all[k2] == row[k2];
        } else if k1 < |row| {
          assert all[k1] == row[k1];
          assert all[k2] == rest[k2 - |row|] && all[k2] in rest;
        } else {
          assert all[k1] == rest[k1 - |row|] && all[k2] == rest[k2 - |row|];
        }
      }
    }
  }

  /** Blocks are visited in strict row-major order: by row origin, then by
      column origin; in particular no block is visited twice. */
  lemma TilesRowMajor(W: nat, H: nat, B: nat)
    requires B > 0
    ensures forall k1, k2 :: 0 <= k1 < k2 < |Tiles(W, H, B)| ==>
      Before(Tiles(W, H, B)[k1], Tiles(W, H, B)[k2])
  {
    RowsFromOrdered(0, W, H, B);
  }

  // ---------------------------------------------------------------------------
  // Partition

  /** Two well-placed blocks that share a pixel are the same block. */
  lemma WellPlacedOverlap(s: Tile, t: Tile, W: nat, H: nat, B: nat, px: nat, py: nat)
    requires B > 0 && WellPlaced(s, W, H, B) && WellPlaced(t, W, H, B)
    requires Covers(s, px, py) && Covers(t, px, py)
    ensures s == t
  {
    if s.x < t.x { AlignedGap(t.x, s.x, B); }
    if t.x < s.x { AlignedGap(s.x, t.x, B); }
    if s.y < t.y { AlignedGap(t.y, s.y, B); }
    if t.y < s.y { AlignedGap(s.y, t.y, B); }
  }

  /** The visited blocks partition the W x H grid: a pixel lies in some block
      exactly when it lies in the raster, and it never lies in two. */
  lemma TilesPartition(W: nat, H: nat, B: nat, px: nat, py: nat)
    requires B > 0
    ensures (exists k :: 0 <= k < |Tiles(W, H, B)| && Covers(Tiles(W, H, B)[k], px, py))
            <==> (px < W && py < H)
    ensures forall k1, k2 ::
      && 0 <= k1 < |Tiles(W, H, B)| && 0 <= k2 < |Tiles(W, H, B)|
      && Covers(Tiles(W, H, B)[k1], px, py) && Covers(Tiles(W, H, B)[k2], px, py)
      ==> k1 == k2
  {
    var ts := Tiles(W, H, B);
    TilesMembers(W, H, B);
    TilesRowMajor(W, H, B);
    if px < W && py < H {
      CellOrigin(px, B);
      CellOrigin(py, B);
      var ox, oy := px - px % B, py - py % B;
      var t := Tile(ox, oy, Extent(ox, W, B), Extent(oy, H, B));
      assert WellPlaced(t, W, H, B);
      var k :| 0 <= k < |ts| && ts[k] == t;
      assert Covers(ts[k], px, py);
    }
    forall k | 0 <= k < |ts| && Covers(ts[k], px, py)
      ensures px < W && py < H
    {
      assert ts[k] in ts;
    }
    forall k1, k2 | 0 <= k1 < |ts| && 0 <= k2 < |ts| && Covers(ts[k1], px, py) && Covers(ts[k2], px, py)
      ensures k1 == k2
    {
      assert ts[k1] in ts && ts[k2] in ts;
      WellPlacedOverlap(ts[k1], ts[k2], W, H, B, px, py);
    }
  }

  // ---------------------------------------------------------------------------
  // Count

  /** A row from column origin x holds ceil((W - x) / B) blocks. */
  lemma {:induction false} RowFromLength(x: nat, y: nat, W: nat, H: nat, B: nat)
    requires B > 0 && y < H
    ensures |RowFrom(x, y, W, H, B)| == if x >= W then 0 else CeilDiv(W - x, B)
    decreases W - x
  {
    if x < W {
      RowFromLength(x + B, y, W, H, B);
      if x + B >= W {
        CeilDivOne(W - x, B);
      } else {
        CeilDivStep(W - x, B);
      }
    }
  }

  /** The rows from row origin y hold ceil((H - y) / B) * ceil(W / B) blocks. */
  lemma {:induction false} RowsFromLength(y: nat, W: nat, H: nat, B: nat)
    requires B > 0
    ensures |RowsFrom(y, W, H, B)| == (if y >= H then 0 else CeilDiv(H - y, B)) * CeilDiv(W, B)
    decreases H - y
  {
    if y < H {
      RowsFromLength(y + B, W, H, B);
      RowFromLength(0, y, W, H, B);
      assert W == 0 ==> CeilDiv(W, B) == 0;
      var rows := if y + B >= H then 0 else CeilDiv(H - y - B, B);
      if y + B >= H {
        CeilDivOne(H - y, B);
      } else {
        CeilDivStep(H - y, B);
      }
      assert CeilDiv(H - y, B) == 1 + rows;
      assert (1 + rows) * CeilDiv(W, B) == CeilDiv(W, B) + rows * CeilDiv(W, B);
    }
  }

  /** The loop visits ceil(W / B) * ceil(H / B) blocks; a raster with no
      columns or no rows gives none at all, and any other raster at least one. */
  lemma TilesCount(W: nat, H: nat, B: nat)
    requires B > 0
    ensures |Tiles(W, H, B)| == CeilDiv(W, B) * CeilDiv(H, B)
    ensures Tiles(W, H, B) == [] <==> (W == 0 || H == 0)
  {
    RowsFromLength(0, W, H, B);
    assert CeilDiv(0, B) == 0;
    if W > 0 { assert CeilDiv(W, B) >= 1; }
    if H > 0 { assert CeilDiv(H, B) >= 1; }
  }

  /** A 300 x 300 raster in 256 x 256 blocks is read as four blocks:
      256 x 256, 44 x 256, 256 x 44 and 44 x 44, in that order. */
  lemma Tiles300By300()
    ensures Tiles(300, 300, 256) ==
      [Tile(0, 0, 256, 256), Tile(256, 0, 44, 256), Tile(0, 256, 256, 44), Tile(256, 256, 44, 44)]
  {
    assert RowFrom(0, 0, 300, 300, 256) == [Tile(0, 0, 256, 256), Tile(256, 0, 44, 256)];
    assert RowFrom(0, 256, 300, 300, 256) == [Tile(0, 256, 256, 44), Tile(256, 256, 44, 44)];
  }
}
