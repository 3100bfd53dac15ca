/** Pixel layout of bands and block buffers.

    A band of a W x H raster is W * H bytes stored row after row.  Reading a
    block with RasterIO into a buffer with default spacing lays it out the same
    way: the block's rows one after another within a band, and the bands one
    after another in the order of the band map. */
module Raster {
  import opened Arith
  import opened Tiling

  /** An unsigned 8-bit pixel value (GDT_Byte). */
  type byte = b: int | 0 <= b < 256

  /** Every band holds W * H pixels. */
  predicate BandsFit(bands: seq<seq<byte>>, W: nat, H: nat)
  {
    forall b :: 0 <= b < |bands| ==> |bands[b]| == W * H
  }

  /** Every entry of the band map names a band, counting from 1. */
  predicate BandMapValid(bandMap: seq<int>, nBands: nat)
  {
    forall k :: 0 <= k < |bandMap| ==> 1 <= bandMap[k] <= nBands
  }

  /** Block t lies inside the W x H raster. */
  predicate Inside(t: Tile, W: nat, H: nat)
  {
    t.x + t.w <= W && t.y + t.h <= H
  }

  /** Pixel (px, py) of the row-major W x H grid a. */
  function Px(a: seq<byte>, W: nat, H: nat, px: nat, py: nat): (v: byte)
    requires |a| == W * H && px < W && py < H
  {
    OffsetBound(W, H, px, py);
    a[Offset(W, px, py)]
  }

  /** The bytes of block t of one band, its rows one after another. */
  function TileOf(band: seq<byte>, W: nat, H: nat, t: Tile): (r: seq<byte>)
    requires |band| == W * H && Inside(t, W, H)
    ensures |r| == t.w * t.h
    decreases t.h
  {
    if t.h == 0 then []
    else
      var start := Offset(W, t.x, t.y);
      assert start + t.w <= |band| by {
        RowInside(W, H, t.x, t.y, t.w);
      }
      band[start .. start + t.w] + TileOf(band, W, H, Tile(t.x, t.y + 1, t.w, t.h - 1))
  }

  /** Pixel (c, r) of block t's bytes is pixel (t.x + c, t.y + r) of the band. */
  lemma {:induction false} TileOfPixel(band: seq<byte>, W: nat, H: nat, t: Tile, c: nat, r: nat)
    requires |band| == W * H && Inside(t, W, H) && c < t.w && r < t.h
    ensures Px(TileOf(band, W, H, t), t.w, t.h, c, r) == Px(band, W, H, t.x + c, t.y + r)
    decreases r
  {
    var tile := TileOf(band, W, H, t);
    var o := Offset(t.w, c, r);
    OffsetBound(t.w, t.h, c, r);
    OffsetBound(W, H, t.x + c, t.y + r);
    RowInside(W, H, t.x, t.y, t.w);
    if r == 0 {
      assert o == c;
      assert tile[o] == band[Offset(W, t.x, t.y) + c];
    } else {
      var below := Tile(t.x, t.y + 1, t.w, t.h - 1);
      var rest := TileOf(band, W, H, below);
      TileOfPixel(band, W, H, below, c, r - 1);
      OffsetStep(t.w, c, r);
      OffsetBound(t.w, t.h - 1, c, r - 1);
      assert tile[o] == rest[o - t.w];
    }
  }

  /** The bytes of block t are the band's pixels inside t, row by row. */
  lemma TileOfAt(band: seq<byte>, W: nat, H: nat, t: Tile)
    requires |band| == W * H && Inside(t, W, H)
    ensures forall c: nat, r: nat :: c < t.w && r < t.h ==>
      Px(TileOf(band, W, H, t), t.w, t.h, c, r) == Px(band, W, H, t.x + c, t.y + r)
  {
    forall c: nat, r: nat | c < t.w && r < t.h
      ensures Px(TileOf(band, W, H, t), t.w, t.h, c, r) == Px(band, W, H, t.x + c, t.y + r)
    {
      TileOfPixel(band, W, H, t, c, r);
    }
  }

  /** The pieces of s, one after another. */
  function Flatten(s: seq<seq<byte>>): (r: seq<byte>)
  {
    if s == [] then [] else s[0] + Flatten(s[1..])
  }

  /** Flattening distributes over concatenation. */
  lemma {:induction false} FlattenAppend(s1: seq<seq<byte>>, s2: seq<seq<byte>>)
    ensures Flatten(s1 + s2) == Flatten(s1) + Flatten(s2)
    decreases |s1|
  {
    if s1 == [] {
      assert s1 + s2 == s2;
    } else {
      assert (s1 + s2)[1..] == s1[1..] + s2;
      FlattenAppend(s1[1..], s2);
    }
  }

  /** Pieces of n bytes each flatten to |s| * n bytes. */
  lemma {:induction false} FlattenLength(s: seq<seq<byte>>, n: nat)
    requires forall k :: 0 <= k < |s| ==> |s[k]| == n
    ensures |Flatten(s)| == |s| * n
    decreases |s|
  {
    if s != [] {
      FlattenLength(s[1..], n);
      MulSucc(|s| - 1, n);
    }
  }

  /** Block t of each band of the map, in map order. */
  function BandBlocks(bands: seq<seq<byte>>, bandMap: seq<int>, W: nat, H: nat, t: Tile): (blocks: seq<seq<byte>>)
    requires BandsFit(bands, W, H) && BandMapValid(bandMap, |bands|) && Inside(t, W, H)
  {
    seq(|bandMap|, k requires 0 <= k < |bandMap| => TileOf(bands[bandMap[k] - 1], W, H, t))
  }

  /** What RasterIO reads for block t into a buffer with default spacing: for
      each entry of the band map in turn, that band's block bytes, w * h bytes
      per band of the map. */
  function ReadTile(bands: seq<seq<byte>>, bandMap: seq<int>, W: nat, H: nat, t: Tile): (r: seq<byte>)
    requires BandsFit(bands, W, H) && BandMapValid(bandMap, |bands|) && Inside(t, W, H)
    ensures |r| == |bandMap| * (t.w * t.h)
  {
    var blocks := BandBlocks(bands, bandMap, W, H, t);
    FlattenLength(blocks, t.w * t.h);
    Flatten(blocks)
  }

  /** Band-sequential layout: the block of the k-th band of the map occupies
      bytes k * w * h up to (k + 1) * w * h of the read buffer. */
  lemma ReadTileBands(bands: seq<seq<byte>>, bandMap: seq<int>, W: nat, H: nat, t: Tile, k: nat)
    requires BandsFit(bands, W, H) && BandMapValid(bandMap, |bands|) && Inside(t, W, H)
    requires k < |bandMap|
    ensures k * (t.w * t.h) + t.w * t.h <= |ReadTile(bands, bandMap, W, H, t)|
    ensures ReadTile(bands, bandMap, W, H, t)[k * (t.w * t.h) .. k * (t.w * t.h) + t.w * t.h]
            == TileOf(bands[bandMap[k] - 1], W, H, t)
  {
    var n := t.w * t.h;
    var s := BandBlocks(bands, bandMap, W, H, t);
    var pre, rest := s[..k], s[k + 1..];
    assert s == pre + ([s[k]] + rest);
    FlattenAppend([s[k]], rest);
    FlattenAppend(pre, [s[k]] + rest);
    assert Flatten([s[k]]) == s[k] + Flatten([]);
    FlattenLength(pre, n);
    assert |pre| == k;
    var r := Flatten(s);
    assert r == Flatten(pre) + (s[k] + Flatten(rest));
    assert r[k * n .. k * n + n] == s[k];
  }

  /** Every block the loop visits fits both buffers: its n = w * h bytes fit
      the B * B destination buffer and its bytes for all nBands bands fit the
      B * B * nBands source buffer. */
  lemma TileBuffersFit(W: nat, H: nat, B: nat, nBands: nat)
    requires B > 0
    ensures forall t :: t in Tiles(W, H, B) ==>
      Inside(t, W, H) && t.w * t.h <= B * B && nBands * (t.w * t.h) <= B * B * nBands
  {
    TilesInBounds(W, H, B);
    forall t | t in Tiles(W, H, B)
      ensures t.w * t.h <= B * B && nBands * (t.w * t.h) <= B * B * nBands
    {
      BlockFits(t.w, t.h, B, nBands);
    }
  }

  /** Storing v at pixel (px0, py0) sets that pixel to v and leaves pixel
      (px, py) as it was when the two differ. */
  lemma PxUpdateAt(a: seq<byte>, W: nat, H: nat, px0: nat, py0: nat, v: byte, px: nat, py: nat)
    requires |a| == W * H && px0 < W && py0 < H && px < W && py < H
    requires Offset(W, px0, py0) < |a|
    ensures Px(a[Offset(W, px0, py0) := v], W, H, px, py) == if px == px0 && py == py0 then v else Px(a, W, H, px, py)
  {
    OffsetBound(W, H, px, py);
    OffsetInverse(W, px, py);
    OffsetInverse(W, px0, py0);
  }

  /** Storing v at pixel (px0, py0) of a, giving a', changes that pixel and no other. */
  lemma PxUpdate(a: seq<byte>, a': seq<byte>, W: nat, H: nat, px0: nat, py0: nat, v: byte)
    requires |a| == W * H && px0 < W && py0 < H && Offset(W, px0, py0) < |a|
    requires a' == a[Offset(W, px0, py0) := v]
    ensures forall px: nat, py: nat :: px < W && py < H ==>
      Px(a', W, H, px, py) == if px == px0 && py == py0 then v else Px(a, W, H, px, py)
  {
    forall px: nat, py: nat | px < W && py < H
      ensures Px(a', W, H, px, py) == if px == px0 && py == py0 then v else Px(a, W, H, px, py)
    {
      PxUpdateAt(a, W, H, px0, py0, v, px, py);
    }
  }

  /** Two grids of the same size that agree on every pixel are equal. */
  lemma PixelsEqual(a: seq<byte>, b: seq<byte>, W: nat, H: nat)
    requires |a| == W * H && |b| == W * H
    requires forall px: nat, py: nat :: px < W && py < H ==> Px(a, W, H, px, py) == Px(b, W, H, px, py)
    ensures a == b
  {
    forall p | 0 <= p < |a|
      ensures a[p] == b[p]
    {
      OffsetOf(W, H, p);
      assert Px(a, W, H, p % W, p / W) == Px(b, W, H, p % W, p / W);
    }
  }
}
