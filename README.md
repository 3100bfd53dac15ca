# ImageProcess: block-wise copy of band 1 into a new byte raster

`ImageProcess(src, dst, format)` in `image_pro.cpp` works in four steps:

1. It looks up the output driver for `format`, opens the source raster and checks that the source has a band 1.
2. It creates a one-band byte destination of the same size and gives it the source's geotransform and projection.
3. It walks the raster in 256 x 256 blocks, clipped at the right and bottom edges. For each block it:
   - reads every band into a reused source buffer, band after band and row-major within a band;
   - copies the first `w * h` bytes of that buffer (band 1) into a destination buffer;
   - writes the destination buffer to the block of the destination.
4. It closes both datasets and returns true. Each failure before the loop returns false and closes the source if it was opened.

The project has four modules:

- `Arith`: the index arithmetic that the other modules share.
  - `Offset(W, x, y) = y * W + x` is the row-major pixel offset.
  - `CeilDiv` is division rounded up.
  - Small lemmas on multiples of the block size.
- `Tiling`: the blocks the loop visits, as a pure function `Tiles(W, H, B)` of the raster size and a block size `B > 0`.
  - Every block stays inside the raster and is at most B x B.
  - Blocks away from the edges are exactly B x B.
  - The blocks partition the grid.
  - There are ceil(W/B) * ceil(H/B) of them.
  - They come in row-major order.
- `Raster`: the pixel layout.
  - A band is `W * H` bytes, row-major.
  - `TileOf` gives the bytes of one block of a band.
  - `ReadTile` is what the read fills the source buffer with: the blocks of the mapped bands, one after another.
- `ImageProcess`: the function itself, as imperative code.
  - The band-map loop, the nested block loops, the read/copy/write of each block over arrays, the destination dataset as a class, and the early-return ladder.
  - The raster library's answers (is the driver found, what does opening yield, does the create succeed) are inputs.
  - A ghost trace records the datasets opened and closed.

The main result is `ImageProcess.ImageProcess`. It returns true exactly when:

- the driver exists;
- the source opens;
- the source has a band;
- the create succeeds.

When it returns true, the new destination has the source's size, geotransform and projection, its band equals band 1 of the source, and both datasets have been closed. When it returns false, no destination exists and the source is closed if it was opened.

## Model

| member | source | states |
|---|---|---|
| Tiling.Tiles | image_pro.cpp:121-134 | The blocks the nested loops visit, in visiting order. Row origins go 0, B, 2B, … below H (RowsFrom, the outer loop), and column origins go 0, B, 2B, … below W within each row (RowFrom, the inner loop). Each block is clipped by Extent. Its guarantees are the Tiling lemma rows below. |
| Tiling.Extent | image_pro.cpp:126-133 | A block extent is between 1 and B and ends inside the axis. It is B exactly when a full block fits, and otherwise it is what remains of the axis. |
| Tiling.TilesMembers | image_pro.cpp:121-134 | A block is visited if and only if its origin is a multiple of B inside the raster and its size is B clipped at the right and bottom edges. |
| Tiling.TilesInBounds | image_pro.cpp:121-133 | Every visited block has 1 <= nXBK <= B and 1 <= nYBK <= B, with j + nXBK <= W and i + nYBK <= H. No block leaves the raster. |
| Tiling.TilesShape | image_pro.cpp:126-133 | Blocks not in the last column or row are exactly B wide or high. The last column is W - j wide, which is W mod B when that is nonzero, and the last row is H - i high, likewise. |
| Tiling.TilesRowMajor | image_pro.cpp:121-123 | Blocks are visited in strict row-major order: by row origin i, then by column origin j. No block is visited twice. |
| Tiling.TilesPartition | image_pro.cpp:121-134 | A pixel lies in some visited block if and only if it lies in the W x H raster, and it never lies in two different blocks. |
| Tiling.TilesCount | image_pro.cpp:121-134 | The loops visit ceil(W/B) * ceil(H/B) blocks. There are none exactly when the width or the height is 0. |
| Tiling.Tiles300By300 | image_pro.cpp:108-134 | With the block size 256, a 300 x 300 raster is read as the blocks 256x256, 44x256, 256x44 and 44x44, in that order. |
| Raster.TileOf | image_pro.cpp:139-140 | The bytes of one block of a band, row-major within the block. It is exactly w * h bytes. |
| Raster.TileOfAt | image_pro.cpp:139-140 | Byte (c, r) of a block's row-major buffer is pixel (x + c, y + r) of the band. |
| Raster.ReadTile | image_pro.cpp:136 | What the read of block t puts in the buffer: the block of each band named by the band map, in map order. A band map of n entries gives n * w * h bytes. |
| Raster.ReadTileBands | image_pro.cpp:136-142 | In the read buffer, the block of the k-th mapped band occupies bytes k*w*h up to (k+1)*w*h. So the first w*h bytes copied by memcpy are the block of band map[0]. |
| Raster.TileBuffersFit | image_pro.cpp:111-113 | Every visited block fits the buffers: w*h <= B*B for the destination buffer, and nBands*w*h <= B*B*nBands for the source buffer. |
| ImageProcess.ExitOf | image_pro.cpp:68-101 | The function gets past every early return if and only if the driver is found, the source opens, band 1 exists and the create succeeds. |
| ImageProcess.BuildBandMap | image_pro.cpp:116-118 | The band map has nBands entries and entry b is b + 1. |
| ImageProcess.ReadBlock | image_pro.cpp:136 | The read fills the front of the source buffer with the block of every mapped band, band after band. The rest of the buffer is unchanged. |
| ImageProcess.CopyBytes | image_pro.cpp:142 | memcpy: the first n bytes of the destination buffer equal those of the source buffer, and the rest are unchanged. |
| ImageProcess.WriteBlock | image_pro.cpp:146 | The write sets each pixel of the block to the buffer's byte at the same place in the block, and leaves every other pixel of the destination unchanged. |
| ImageProcess.ProcessBlock | image_pro.cpp:126-146 | After the read, copy and write of one block, the pixels of that block in the destination equal band 1 of the source, and all other pixels are unchanged. |
| ImageProcess.ProcessRow | image_pro.cpp:123-147 | The inner loop visits exactly the blocks of row origin i, left to right. Afterwards rows i to i + B - 1 of the destination equal band 1, and all other rows are unchanged. |
| ImageProcess.ProcessTiles | image_pro.cpp:121-148 | The nested loops visit exactly the blocks Tiles(W, H, B), in that order. Afterwards the destination band equals band 1 of the source. |
| ImageProcess.OutputDataset.Create | image_pro.cpp:96 | Create makes a fresh single byte band of W x H pixels. |
| ImageProcess.OutputDataset.SetGeoTransform | image_pro.cpp:104 | Setting the geotransform changes only the geotransform. |
| ImageProcess.OutputDataset.SetProjection | image_pro.cpp:106 | Setting the projection changes only the projection. |
| ImageProcess.ImageProcess | image_pro.cpp:62-159 | Returns true if and only if every check on the ladder passes. On failure no destination exists, and the source is closed exactly when it was opened. On success the fresh destination has the source's size, geotransform and projection, its band equals band 1, and every dataset opened or created is closed. |

## Left out

- `GetRasterInformation` (image_pro.cpp:3-60) only prints metadata and computes a floating-point minimum and maximum through the raster library. That is I/O and foreign calls, not logic.
- `GDALAllRegister`, the driver registry, opening, creating and closing datasets are modelled only by their success or failure (the inputs `driverFound`, `source` and `createOk`) and by the ghost trace of opens and closes.
- The pixel values are modelled only as the library delivers them as bytes. The read's conversion of other data types to `GDT_Byte`, and resampling, belong to the raster library.
- The geotransform (six doubles) and the projection string are opaque values that are copied. No arithmetic on them is modelled.
- ImageProcess.ImageProcess: the result of the geotransform query at image_pro.cpp:84 is not checked. The model's opaque `Dataset.geoTransform` stands for whatever that query leaves in the array, successful or not.
- ImageProcess.ImageProcess: the results of `SetGeoTransform` (image_pro.cpp:104) and `SetProjection` (image_pro.cpp:106) are not checked. The model assumes both setters succeed, so its promise that the destination carries the source's geotransform and projection holds only under that assumption. The source returns true even when either setter fails.
- ImageProcess.ImageProcess: a read or write that fails inside the block loop is ignored by the source (its return value is not checked). The model treats every block read and write as succeeding.
- Raster.TileBuffersFit: buffer sizes are unbounded integers. The `int` product `nBlockSize * nBlockSize * nBands` at image_pro.cpp:111 overflows once nBands >= 32768 (256 * 256 * 32768 = 2^31). With nBands = 65536 it wraps to a 0-byte buffer, which the read at image_pro.cpp:136 overruns. The model allocates the mathematically exact size, so its "every block fits" does not cover that overflow.
- ImageProcess.ProcessTiles: indices are unbounded integers. The `int` overflow of `i += nBlockSize` or `j += nBlockSize` near `INT_MAX` is not modelled.
- The `delete[]` of the three buffers (image_pro.cpp:151-153) has no counterpart. Dafny arrays are garbage-collected, so the model only allocates them.
- The band with index 1 is absent exactly when the source has no bands. The model represents a missing band 1 that way.
- image_pro.h holds only declarations.
