/** ImageProcess: copy band 1 of a source raster into a new single-band byte
    raster, block by block, keeping the source's geotransform and projection.

    The raster library is a collaborator whose results are inputs here: whether
    the output driver was found, what opening the source yielded, and whether
    creating the destination succeeded.  The block loop itself, its buffers and
    the band map are modelled as the arrays the function allocates and updates. */
module ImageProcess {
  import opened Arith
  import opened Tiling
  import opened Raster

  datatype Option<T> = None | Some(value: T)

  /** The block size the function uses. */
  const BlockSize: nat := 256

  /** An opened source dataset: its size, its bands (pixel values as read with
      the byte data type), and its geotransform and projection, carried along
      as they are. */
  datatype Dataset = Dataset(
    width: nat,
    height: nat,
    bands: seq<seq<byte>>,
    geoTransform: seq<real>,
    projection: string)

  predicate ValidDataset(ds: Dataset)
  {
    BandsFit(ds.bands, ds.width, ds.height)
  }

  /** The destination dataset: one byte band of width x height pixels, and the
      geotransform and projection set on it. */
  class OutputDataset {
    const width: nat
    const height: nat
    const band: array<byte>
    var geoTransform: seq<real>
    var projection: string

    /** Create(width, height, 1 band, GDT_Byte) on the driver. */
    constructor Create(W: nat, H: nat)
      ensures width == W && height == H
      ensures fresh(band) && band.Length == W * H
      ensures geoTransform == [] && projection == []
    {
      width, height := W, H;
      band := new byte[W * H];
      geoTransform, projection := [], [];
    }

    method SetGeoTransform(g: seq<real>)
      modifies this
      ensures geoTransform == g && projection == old(projection)
    {
      geoTransform := g;
    }

    method SetProjection(p: string)
      modifies this
      ensures projection == p && geoTransform == old(geoTransform)
    {
      projection := p;
    }
  }

  /** Calls on the raster library that open or close a dataset. */
  datatype Event = OpenSource | CreateDestination | CloseSource | CloseDestination

  /** Which return of ImageProcess is taken. */
  datatype Exit =
    | UnknownFormat            // no driver of the requested format
    | SourceOpenFailed         // the source could not be opened
    | NoBandsFound             // the source has no band 1
    | DestinationCreateFailed  // the driver could not create the destination
    | Completed

  /** The exit taken for the given collaborator results, in the order the
      function checks them. */
  function ExitOf(driverFound: bool, source: Option<Dataset>, createOk: bool): (e: Exit)
    ensures e == Completed <==> driverFound && source.Some? && |source.value.bands| >= 1 && createOk
  {
    if !driverFound then UnknownFormat
    else if source.None? then SourceOpenFailed
    else if |source.value.bands| == 0 then NoBandsFound
    else if !createOk then DestinationCreateFailed
    else Completed
  }

  /** Every dataset opened or created is closed, and nothing else is. */
  predicate AllClosed(trace: seq<Event>)
  {
    && (OpenSource in trace <==> CloseSource in trace)
    && (CreateDestination in trace <==> CloseDestination in trace)
    && (CreateDestination in trace ==> OpenSource in trace)
  }

  /** The band map [1, 2, ..., nBands]: read every band, in order. */
  method BuildBandMap(nBands: nat) returns (bandMap: array<int>)
    ensures fresh(bandMap) && bandMap.Length == nBands
    ensures forall b :: 0 <= b < nBands ==> bandMap[b] == b + 1
  {
    bandMap := new int[nBands];
    var b := 0;
    while b < nBands
      invariant 0 <= b <= nBands
      invariant forall k :: 0 <= k < b ==> bandMap[k] == k + 1
    {
      bandMap[b] := b + 1;
      b := b + 1;
    }
  }

  /** RasterIO(GF_Read) of block t of the bands in the band map into buf:
      the buffer starts with the block's bytes, band after band, and the rest
      of it is left as it was. */
  method ReadBlock(bands: seq<seq<byte>>, W: nat, H: nat, t: Tile, bandMap: array<int>, buf: array<byte>)
    requires BandsFit(bands, W, H) && BandMapValid(bandMap[..], |bands|) && Inside(t, W, H)
    requires |ReadTile(bands, bandMap[..], W, H, t)| <= buf.Length
    modifies buf
    ensures buf[..|ReadTile(bands, bandMap[..], W, H, t)|] == ReadTile(bands, bandMap[..], W, H, t)
    ensures buf[|ReadTile(bands, bandMap[..], W, H, t)|..] == old(buf[|ReadTile(bands, bandMap[..], W, H, t)|..])
  {
    var data := ReadTile(bands, bandMap[..], W, H, t);
    var k := 0;
    while k < |data|
      invariant 0 <= k <= |data|
      invariant buf[..k] == data[..k]
      invariant buf[|data|..] == old(buf[|data|..])
    {
      buf[k] := data[k];
      k := k + 1;
    }
  }

  /** memcpy(dst, src, n): the first n bytes of dst become those of src. */
  method CopyBytes(dst: array<byte>, src: array<byte>, n: nat)
    requires n <= dst.Length && n <= src.Length && dst != src
    modifies dst
    ensures dst[..n] == src[..n]
    ensures dst[n..] == old(dst[n..])
  {
    var k := 0;
    while k < n
      invariant 0 <= k <= n
      invariant dst[..k] == src[..k]
      invariant dst[n..] == old(dst[n..])
    {
      dst[k] := src[k];
      k := k + 1;
    }
  }

  /** RasterIO(GF_Write) of the first w * h bytes of buf, read as a w x h
      block, to block t of band `dst`: the pixels of t take the buffer's
      values and every other pixel keeps its value.  The write selects its
      target band through the first entry of the band map, which is 1, the
      destination's only band; `dst` is that band. */
  method WriteBlock(dst: array<byte>, W: nat, H: nat, t: Tile, buf: array<byte>)
    requires dst.Length == W * H && Inside(t, W, H) && t.w * t.h <= buf.Length && dst != buf
    modifies dst
    ensures forall px: nat, py: nat :: px < W && py < H ==>
      Px(dst[..], W, H, px, py) ==
        if Covers(t, px, py) then Px(buf[..t.w * t.h], t.w, t.h, px - t.x, py - t.y)
        else Px(old(dst[..]), W, H, px, py)
  {
    ghost var tile := buf[..t.w * t.h];
    var r := 0;
    while r < t.h
      invariant 0 <= r <= t.h
      invariant forall px: nat, py: nat :: px < W && py < H ==>
        Px(dst[..], W, H, px, py) ==
          if Covers(t, px, py) && py < t.y + r then Px(tile, t.w, t.h, px - t.x, py - t.y)
          else Px(old(dst[..]), W, H, px, py)
    {
      var c := 0;
      while c < t.w
        invariant 0 <= c <= t.w
        invariant forall px: nat, py: nat :: px < W && py < H ==>
          Px(dst[..], W, H, px, py) ==
            if Covers(t, px, py) && (py < t.y + r || (py == t.y + r && px < t.x + c))
            then Px(tile, t.w, t.h, px - t.x, py - t.y)
            else Px(old(dst[..]), W, H, px, py)
      {
        OffsetBound(W, H, t.x + c, t.y + r);
        OffsetBound(t.w, t.h, c, r);
        ghost var before := dst[..];
        dst[Offset(W, t.x + c, t.y + r)] := buf[Offset(t.w, c, r)];
        assert Px(tile, t.w, t.h, c, r) == buf[Offset(t.w, c, r)];
        PxUpdate(before, dst[..], W, H, t.x + c, t.y + r, buf[Offset(t.w, c, r)]);
        c := c + 1;
      }
      r := r + 1;
    }
  }

  /** The body of the block loop for block t: read all bands of t into
      srcBuf, copy its first w * h bytes (band 1, by the band-sequential
      layout) into dstBuf, and write dstBuf to block t of `dst`.  Afterwards
      the pixels of t hold band 1 of the source and every other pixel of `dst`
      is as it was. */
  method ProcessBlock(bands: seq<seq<byte>>, W: nat, H: nat, B: nat, t: Tile,
                      bandMap: array<int>, srcBuf: array<byte>, dstBuf: array<byte>, dst: array<byte>)
    requires |bands| >= 1 && BandsFit(bands, W, H)
    requires Inside(t, W, H) && t.w <= B && t.h <= B
    requires bandMap.Length == |bands| && forall b :: 0 <= b < bandMap.Length ==> bandMap[b] == b + 1
    requires srcBuf.Length == B * B * |bands| && dstBuf.Length == B * B && dst.Length == W * H
    requires srcBuf != dstBuf && srcBuf != dst && dstBuf != dst
    modifies srcBuf, dstBuf, dst
    ensures forall px: nat, py: nat :: px < W && py < H ==>
      Px(dst[..], W, H, px, py) ==
        if Covers(t, px, py) then Px(bands[0], W, H, px, py) else Px(old(dst[..]), W, H, px, py)
  {
    BlockFits(t.w, t.h, B, |bands|);
    var n := t.w * t.h;
    ghost var tile := TileOf(bands[0], W, H, t);

    ReadBlock(bands, W, H, t, bandMap, srcBuf);
    ReadTileBands(bands, bandMap[..], W, H, t, 0);
    assert srcBuf[..n] == tile;

    CopyBytes(dstBuf, srcBuf, n);
    assert dstBuf[..n] == tile;

    WriteBlock(dst, W, H, t, dstBuf);
    TileOfAt(bands[0], W, H, t);
  }

  /** After block t at (j, i) is written, the pixels of row band i that are
      done reach the right edge of t, and the other pixels are as before. */
  lemma BlockDone(orig: seq<byte>, before: seq<byte>, after: seq<byte>, band: seq<byte>,
                  W: nat, H: nat, B: nat, i: nat, j: nat, t: Tile)
    requires B > 0 && i < H && j < W && t == Tile(j, i, Extent(j, W, B), Extent(i, H, B))
    requires |orig| == W * H && |before| == W * H && |after| == W * H && |band| == W * H
    requires forall px: nat, py: nat :: px < W && py < H ==>
      Px(before, W, H, px, py) ==
        if i <= py < i + B && px < j then Px(band, W, H, px, py) else Px(orig, W, H, px, py)
    requires forall px: nat, py: nat :: px < W && py < H ==>
      Px(after, W, H, px, py) ==
        if Covers(t, px, py) then Px(band, W, H, px, py) else Px(before, W, H, px, py)
    ensures forall px: nat, py: nat :: px < W && py < H ==>
      Px(after, W, H, px, py) ==
        if i <= py < i + B && px < j + B then Px(band, W, H, px, py) else Px(orig, W, H, px, py)
  {
  }

  /** Row i's blocks come first among the rows from i on. */
  lemma RowsStep(visited: seq<Tile>, W: nat, H: nat, B: nat, i: nat)
    requires B > 0 && i < H && visited + RowsFrom(i, W, H, B) == Tiles(W, H, B)
    ensures visited + RowFrom(0, i, W, H, B) + RowsFrom(i + B, W, H, B) == Tiles(W, H, B)
  {
    assert RowsFrom(i, W, H, B) == RowFrom(0, i, W, H, B) + RowsFrom(i + B, W, H, B);
  }

  /** The block at (j, i), clipped at the edges, is the next one of row i. */
  lemma BlockStep(row: seq<Tile>, W: nat, H: nat, B: nat, i: nat, j: nat)
    requires B > 0 && i < H && j < W
    requires row + RowFrom(j, i, W, H, B) == RowFrom(0, i, W, H, B)
    ensures row + [Tile(j, i, Extent(j, W, B), Extent(i, H, B))] + RowFrom(j + B, i, W, H, B)
            == RowFrom(0, i, W, H, B)
  {
    var t := Tile(j, i, Extent(j, W, B), Extent(i, H, B));
    assert RowFrom(j, i, W, H, B) == [t] + RowFrom(j + B, i, W, H, B);
    assert row + [t] + RowFrom(j + B, i, W, H, B) == row + RowFrom(j, i, W, H, B);
  }

  /** Past the right edge, row i is complete. */
  lemma RowEnd(row: seq<Tile>, W: nat, H: nat, B: nat, i: nat, j: nat)
    requires B > 0 && i < H && j >= W
    requires row + RowFrom(j, i, W, H, B) == RowFrom(0, i, W, H, B)
    ensures row == RowFrom(0, i, W, H, B)
  {
    assert RowFrom(j, i, W, H, B) == [];
  }

  /** Past the bottom edge, every block has been visited. */
  lemma AllRows(visited: seq<Tile>, W: nat, H: nat, B: nat, i: nat)
    requires B > 0 && i >= H && visited + RowsFrom(i, W, H, B) == Tiles(W, H, B)
    ensures visited == Tiles(W, H, B)
  {
    assert RowsFrom(i, W, H, B) == [];
  }

  /** The inner loop for row origin i: column origins j = 0, B, 2B, ...
      below W, each block B x B clipped at the right and bottom edges.  The
      blocks visited are row i's, left to right; afterwards rows i to i + B - 1
      of `dst` hold band 1 of the source and the other rows are unchanged. */
  method ProcessRow(bands: seq<seq<byte>>, W: nat, H: nat, B: nat, i: nat,
                    bandMap: array<int>, srcBuf: array<byte>, dstBuf: array<byte>, dst: array<byte>)
    returns (ghost row: seq<Tile>)
    requires B > 0 && i < H && |bands| >= 1 && BandsFit(bands, W, H)
    requires bandMap.Length == |bands| && forall b :: 0 <= b < bandMap.Length ==> bandMap[b] == b + 1
    requires srcBuf.Length == B * B * |bands| && dstBuf.Length == B * B && dst.Length == W * H
    requires srcBuf != dstBuf && srcBuf != dst && dstBuf != dst
    modifies srcBuf, dstBuf, dst
    ensures row == RowFrom(0, i, W, H, B)
    ensures forall px: nat, py: nat :: px < W && py < H ==>
      Px(dst[..], W, H, px, py) ==
        if i <= py < i + B then Px(bands[0], W, H, px, py) else Px(old(dst[..]), W, H, px, py)
  {
    row := [];
    var j := 0;
    while j < W
      invariant row + RowFrom(j, i, W, H, B) == RowFrom(0, i, W, H, B)
      invariant forall px: nat, py: nat :: px < W && py < H ==>
        Px(dst[..], W, H, px, py) ==
          if i <= py < i + B && px < j then Px(bands[0], W, H, px, py) else Px(old(dst[..]), W, H, px, py)
      decreases W - j
    {
      var nXBK := B;
      var nYBK := B;
      if i + B > H {
        nYBK := H - i;
      }
      if j + B > W {
        nXBK := W - j;
      }
      var t := Tile(j, i, nXBK, nYBK);
      assert t == Tile(j, i, Extent(j, W, B), Extent(i, H, B));
      ghost var before := dst[..];

      ProcessBlock(bands, W, H, B, t, bandMap, srcBuf, dstBuf, dst);

      BlockDone(old(dst[..]), before, dst[..], bands[0], W, H, B, i, j, t);
      BlockStep(row, W, H, B, i, j);
      row := row + [t];
      j := j + B;
    }
    RowEnd(row, W, H, B, i, j);
  }

  /** The block loop: row origins i = 0, B, 2B, ... below H, each row
      processed by the inner loop.  The blocks visited are Tiles(W, H, B), in
      that order, and afterwards `dst` holds band 1 of the source. */
  method ProcessTiles(bands: seq<seq<byte>>, W: nat, H: nat, B: nat,
                      bandMap: array<int>, srcBuf: array<byte>, dstBuf: array<byte>, dst: array<byte>)
    returns (ghost visited: seq<Tile>)
    requires B > 0 && |bands| >= 1 && BandsFit(bands, W, H)
    requires bandMap.Length == |bands| && forall b :: 0 <= b < bandMap.Length ==> bandMap[b] == b + 1
    requires srcBuf.Length == B * B * |bands| && dstBuf.Length == B * B && dst.Length == W * H
    requires srcBuf != dstBuf && srcBuf != dst && dstBuf != dst
    modifies srcBuf, dstBuf, dst
    ensures visited == Tiles(W, H, B)
    ensures dst[..] == bands[0]
  {
    visited := [];
    var i := 0;
    while i < H
      invariant visited + RowsFrom(i, W, H, B) == Tiles(W, H, B)
      invariant forall px: nat, py: nat :: px < W && py < H && py < i ==>
        Px(dst[..], W, H, px, py) == Px(bands[0], W, H, px, py)
      decreases H - i
    {
      RowsStep(visited, W, H, B, i);
      ghost var row := ProcessRow(bands, W, H, B, i, bandMap, srcBuf, dstBuf, dst);
      visited := visited + row;
      i := i + B;
    }
    AllRows(visited, W, H, B, i);
    PixelsEqual(dst[..], bands[0], W, H);
  }

  /** ImageProcess(src, dst, format) with the raster library's answers as
      inputs: `driverFound` for the driver lookup, `source` for opening the
      source, `createOk` for creating the destination.  Returns whether the
      function returns true, the destination it created, and the ghost trace
      of datasets opened and closed. */
  method ImageProcess(driverFound: bool, source: Option<Dataset>, createOk: bool)
    returns (ok: bool, dst: OutputDataset?, ghost trace: seq<Event>)
    requires source.Some? ==> ValidDataset(source.value)
    ensures ok <==> ExitOf(driverFound, source, createOk) == Completed
    ensures AllClosed(trace)
    ensures ExitOf(driverFound, source, createOk) in {UnknownFormat, SourceOpenFailed} ==> trace == []
    ensures ExitOf(driverFound, source, createOk) in {NoBandsFound, DestinationCreateFailed} ==>
      trace == [OpenSource, CloseSource]
    ensures !ok ==> dst == null
    ensures ok ==> trace == [OpenSource, CreateDestination, CloseSource, CloseDestination]
    ensures ok ==>
      && dst != null && fresh(dst) && fresh(dst.band)
      && dst.width == source.value.width && dst.height == source.value.height
      && dst.geoTransform == source.value.geoTransform
      && dst.projection == source.value.projection
      && dst.band[..] == source.value.bands[0]
  {
    ok, dst, trace := false, null, [];
    if !driverFound {
      return;
    }
    if source.None? {
      return;
    }
    var src := source.value;
    trace := trace + [OpenSource];

    var nXSize, nYSize, nBands := src.width, src.height, |src.bands|;
    var geoTransform := src.geoTransform;
    var projection := src.projection;

    if nBands == 0 {
      trace := trace + [CloseSource];
      return;
    }

    if !createOk {
      trace := trace + [CloseSource];
      return;
    }
    var out := new OutputDataset.Create(nXSize, nYSize);
    trace := trace + [CreateDestination];

    out.SetGeoTransform(geoTransform);
    out.SetProjection(projection);

    var nBlockSize := BlockSize;
    var srcData := new byte[nBlockSize * nBlockSize * nBands];
    var dstData := new byte[nBlockSize * nBlockSize];
    var bandMap := BuildBandMap(nBands);

    ghost var visited := ProcessTiles(src.bands, nXSize, nYSize, nBlockSize, bandMap, srcData, dstData, out.band);

    trace := trace + [CloseSource, CloseDestination];
    ok, dst := true, out;
  }
}
