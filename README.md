# epub2images: packing and dithering core

`epub2images.py` turns an EPUB (through a PDF) into a series of 800x480 page
images for an e-ink display. Each page is written either as a 1-bit
black-and-white raster or, in four-tone greyscale mode, as a 2-bit raster in
which every byte holds four pixels. The script also carries two dithering
routines written with numpy: error diffusion (`dither`, with the
Floyd-Steinberg, Stucki and Atkinson kernels) and ordered dithering
(`dither_bayer`, with an 8x8 Bayer matrix).

This project models the integer logic of those three pieces:

- `packing.dfy` (module `Packing`): the 2-bit packer that sits inside
  `main`, lifted into the method `Pack2bpp`. The function `Pack` specifies it
  group by group, including the two exceptions the loop can raise. `Unpack`
  is the inverse of `Pack`, and the round trip is proved in both
  directions.
- `ordered_dither.dfy` (module `OrderedDither`): `dither_bayer` as an
  `array2` method. The thresholds are `k / 64` for integer numerators `k`, so
  for an integer pixel `p`, `p > k / 64` holds exactly when `64 * p > k`, and
  the model needs no floating point. The module also proves facts about the
  Bayer constant, and how many cells of a uniform tile come out white.
- `diffusion.dfy` (module `Diffusion`): the index arithmetic of `dither`.
  This covers the centre column `mid`, the clipped window
  `loj`/`hij`/`hii`, the kernel slice matched with it, and the row-major
  scan. It also proves that a step never adds error to a pixel already
  visited.

## Model

| member | source | states |
|---|---|---|
| Packing.Pack | epub2images.py:202-207 | The loop group by group: the packed bytes, or `IndexError` for a short tail, or `ValueError` for a group above 255, whichever the first failing group raises. On success there is one byte for every four input bytes. |
| Packing.Invert | epub2images.py:203-206 | `v ^ 3`: the result and `v` share the six high bits, and their two low bits add up to 3. |
| Packing.XorAgrees | epub2images.py:203-206 | On every byte, the arithmetic `Invert` equals the bitwise `^ 3` of the source. |
| Packing.InvertFields | epub2images.py:203-206 | On every byte, `^ 3` keeps the high six bits, complements the low two, and is its own inverse. |
| Packing.Pack2bpp | epub2images.py:201-207 | On a buffer of whole groups that each fit in a byte, which is exactly when the loop completes, the loop produces what `Pack` specifies. There is one byte per group of four, and byte `k` is the inverted group at `4k`. For palette indices, decoding the result gives the input back. |
| Packing.PackSucceeds | epub2images.py:202-207 | The loop completes exactly when the length is a multiple of four and every group's packed value fits in a byte. |
| Packing.PackErrors | epub2images.py:202-207 | `ValueError` is raised exactly when some whole group overflows 255. `IndexError` is raised exactly when every group fits and a short tail is left. |
| Packing.PackLayout | epub2images.py:202-207 | On success the output has `len / 4` bytes. Byte `k` is `(a<<6)+(b<<4)+(c<<2)+d` of the inverted pixels `4k..4k+3`, so the earliest pixel sits in the top bits. |
| Packing.InvertPaletteIndex | epub2images.py:203-206 | On a palette index 0..3, `^ 3` is `3 - v`, and it is its own inverse. |
| Packing.GroupRoundTrip | epub2images.py:203-207 | Four palette indices always pack into 0..255, and their fields read high to low and inverted back are the indices in order. |
| Packing.PaletteGroupsFit | epub2images.py:207 | A buffer of palette indices never makes `bytearray.append` fail. |
| Packing.UnpackPack | epub2images.py:202-207 | Packing whole groups of palette indices succeeds, and decoding the packed bytes gives the indices back. |
| Packing.PackUnpack | epub2images.py:202-207 | Every byte string is the packing of its own decoding, so every byte value is a valid packed group. |
| Packing.PackExample | epub2images.py:203-207 | Indices 0, 1, 2, 3 pack into `0xE4`. |
| Packing.NonPaletteExample | epub2images.py:203-207 | A buffer that is not made of palette indices is packed too when its group fits: `[3, 3, 3, 4]` packs into 7. |
| OrderedDither.RankInjective | epub2images.py:13-18 | The matrix is 8x8, and every numerator lies in 0..63 and occurs in one cell only. |
| OrderedDither.RankSurjective | epub2images.py:13-18 | Every numerator 0..63 occurs, so the 64 thresholds are 0/64 .. 63/64, all below 1. |
| OrderedDither.Cell | epub2images.py:79-82 | One output pixel is 0 or 255. |
| OrderedDither.CellIsLocal | epub2images.py:79 | The output at (x, y) depends only on the pixel there and on (x mod 8, y mod 8). |
| OrderedDither.CellMonotone | epub2images.py:79-82 | A brighter pixel at the same position never dithers darker. |
| OrderedDither.CellIsPositivity | epub2images.py:79-82 | Because every threshold of the constant at lines 13-18 is below 1, an integer pixel comes out 255 exactly when it is positive. |
| OrderedDither.CellFixesBilevel | epub2images.py:79-82 | A pixel that is already 0 or 255 is left as it is. |
| OrderedDither.DitherBayer | epub2images.py:67-84 | The method returns a fresh array of the input's shape and only reads the input. Every cell is `Cell` of the pixel there, so it is 0 or 255. A bilevel input comes back unchanged. |
| OrderedDither.CountBelowIsLevel | epub2images.py:13-18 | Exactly `t` of the 64 cells of a tile have a numerator below `t`. |
| OrderedDither.AsWrittenTileWhiteCount | epub2images.py:79-82 | As written, a uniform tile of any level from 1 to 255 comes out entirely white (see Findings). |
| OrderedDither.ScaledTileWhiteCount | epub2images.py:79-82 | With the threshold scaled to 0..255, a uniform tile of level `p` has `ceil(64p/255)` white cells. |
| Diffusion.Mid | epub2images.py:52 | `int(shape[1] / 2)` is the floor of half the column count: `2 * mid <= kcols <= 2 * mid + 1`. |
| Diffusion.SliceLength | epub2images.py:62 | A numpy slice `a[lo:hi]` with non-negative bounds has at most `n` elements. It has `hi - lo` of them when both bounds fit, `n - lo` when only the stop runs past the end, and none when the start is at or past the stop or the end. |
| Diffusion.Aligned | epub2images.py:62 | The kernel slice has the window's shape exactly when its columns `mid+loj-j .. mid+hij-j` lie inside the kernel. |
| Diffusion.WindowAt | epub2images.py:52-61 | The window holds the pixel, stays inside the buffer, reaches at most `mid` columns to each side, and covers rows `i` to `i + krows - 1` at most. |
| Diffusion.OddKernelAligned | epub2images.py:59-62 | For an odd number of kernel columns, the slice `matrix[0:hii-i, mid+loj-j:mid+hij-j]` lies inside the kernel and has the window's shape. |
| Diffusion.EvenKernelMisaligned | epub2images.py:59-62 | On a buffer wider than `mid` columns, a kernel with an even number of columns gives a slice that runs one column past the kernel at the first pixel of each row, so the shapes differ. |
| Diffusion.AlignedIffOdd | epub2images.py:52-62 | On a buffer wider than `mid` columns, the slice matches the window at every pixel exactly when the kernel has an odd number of columns. |
| Diffusion.CellReceivesEntry | epub2images.py:62 | For a kernel with an odd number of columns, buffer cell (r, c) of the window receives kernel entry (r - i, mid + c - j), and that entry exists. |
| Diffusion.FloydSteinbergWellFormed | epub2images.py:10 | The kernel is rectangular with odd width, non-negative, puts no weight on the current or earlier pixels, and passes on 16/16 of the error. |
| Diffusion.StuckiWellFormed | epub2images.py:11 | The same shape facts hold, and the kernel passes on 42/42 of the error. |
| Diffusion.AtkinsonWellFormed | epub2images.py:12 | The same shape facts hold, and the kernel passes on 6/8 of the error. |
| Diffusion.RowMajorOrder | epub2images.py:54-55 | Row-major indices order pixels by row, then by column. |
| Diffusion.RowMajorIndex | epub2images.py:54-55 | Every pixel has a row-major index inside the buffer, and no other pixel has it. |
| Diffusion.Scan | epub2images.py:54-61 | The nested loop takes `height * width` steps. Step `n` visits the pixel with row-major index `n`, with that pixel's window. |
| Diffusion.ScanVisitsEachOnce | epub2images.py:54-55 | The scan visits each pixel exactly once, in row-major order: step `i * width + j` is pixel (i, j), and no other step is. |
| Diffusion.VisitedCellsGetZeroWeight | epub2images.py:54-62 | Within a step's window, the current pixel and the pixels already visited lie on row `i` at columns up to `j`, and they meet only zero kernel weights. |

## Left out

- The floating-point values of `dither` are not modelled. This covers the scaling by `1/255` and `255`, Python's half-to-even `round`, and the accumulation of `err * matrix`. `Diffusion.Scan` records the pixel and window of each step instead of updating a float buffer in place.
- The three diffusion kernels are stored as integer numerators. Their multiplication by `1/16`, `1/42` and `1/8` is not modelled; `Kernel` keeps the denominator. (The Bayer constant's `1/64` is modelled exactly, as the comparison `64 * p > k`.)
- `main` is not part of this model. It parses arguments, checks the file, runs `ebook-convert`, renders the PDF, creates directories, writes the page files and the `HEAD` file, and updates the progress bar. All of this is I/O or calls into tools and libraries.
- The PIL operations are not modelled: `rotate`, `crop`, `convert('L')`, `quantize(4, ...)`, `convert('1', dither=...)`, `tobytes` and `save`. They are library code. The 1-bit output path relies on PIL's own packing and dithering, so it is left out as well.
- `printProgressBar` (terminal output) and `waveshare_opts` (a constant option string) are left out.
- Zero-padded file names (`f'{i:06d}'`) are left out.
- Packing.Pack2bpp: requires a whole number of groups of four, each packing to 255 or less. By `Packing.PackSucceeds` these are exactly the buffers on which the loop completes. Bytes above 3 are accepted when their group fits (`Packing.NonPaletteExample`), and the quantized image always qualifies (`Packing.PaletteGroupsFit`). On the other buffers the loop raises `IndexError` or `ValueError`. That path is modelled by `Packing.Pack` and `Packing.PackErrors`, not by the method.
- `^ 3` is written arithmetically: the six high bits are kept and the two low bits are complemented. It is not written as a bit-vector XOR. `Packing.XorAgrees` proves the two agree on every byte.
- Diffusion: what numpy does when the kernel slice and the window differ in shape is not modelled. If the slice is one column wide, numpy silently broadcasts that column over the whole window, the current pixel included. An example is a 2-column kernel at column 0. Otherwise numpy raises. `Diffusion.Aligned` and `Diffusion.AlignedIffOdd` state exactly when the shapes differ, but the model captures neither outcome.

## Findings

| source | as written | input that shows it | evidently intended | confidence | as-written member | corrected member |
|---|---|---|---|---|---|---|
| epub2images.py:79 | `px[x, y] > bayer[...]` compares pixels in 0..255 with thresholds in 0/64..63/64. Every pixel from 1 up is white, and no pattern appears. | A uniform 8x8 tile of grey 128 gives 64 white cells out of 64. | Compare with the threshold scaled to the pixel range (`px / 255 > bayer`, as `dither` does at line 51). Grey 128 then gives 33 of 64 white. | medium, not executed | OrderedDither.AsWrittenTileWhiteCount | OrderedDither.ScaledTileWhiteCount |
