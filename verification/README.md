# Punch-card decoder, modelled in Dafny

The repository turns a photograph of a punch card into the program the card holds: 8 lines of
10 symbols, each `1` or `-`. It has one pipeline, written twice:

- `decode/decode.py` is the grayscale decoder. It thresholds each RGB channel at 130 and lets PIL
  convert the result to grayscale. A crop line counts as content when its mean exceeds 25. A cell
  is `1` when its mean is below `PUNCHED = 240`, and `-` otherwise. The file's own comment calls
  240 the least mean of a punched cell, so a punched cell is printed `-`.
- `decode.py` is the 1-bit decoder. A pixel is set when all three channels exceed 80. A crop
  line counts as content when its mean exceeds 0.2. A cell is `-` when its mean exceeds 0.95.

Both go through the same stages:

1. `bw` binarises the image.
2. `crop` scans inward from each edge for the first line whose mean passes the background test,
   then cuts to that box.
3. `trim` drops the left 15 % and the right 3 % of the width.
4. `rows` and `cols` cut the image into 8 x 10 cells at `bound(i) = i*len/N + (1 if i < len % N)`.
5. `entry` classifies each cell by its mean.
6. The grid is printed as newline-joined lines.

The model is one pipeline parameterised by `Config.Config`. `Config.Grayscale` and
`Config.OneBit` instantiate it for the two files. Images are `Raster.Raster<P>` values: a width,
a height and rows of samples. A mean test (`Stats.Passes`) compares by cross-multiplying, so
`mean > 25` becomes `sum > 25 * n` and `mean > 0.95` becomes `20 * sum > 19 * n`.
`Stats.PassesIsMeanTest` proves that this agrees with the exact rational mean. Where the source
loops (the edge scans, the `append` loops, `avg`'s accumulator, `bw`'s nested loops), the model
has a method with loop invariants. Each such method is proved equal to a specification function,
and the properties are proved about those functions.

Facts about the code that a reader might not expect:

- `bound` is not a balanced partition: a band can have anywhere from `len / N - 1` to
  `len / N + 1` lines (`Bands.BandSize`). At height 10 with 8 bands, band 1 is empty and band 3
  has two lines (`Bands.EightBandQuirks`).
- When the length is at least `N` and `N` does not divide it, line 0 lies in no band
  (`Bands.BoundFirst`, `Bands.FirstLineInNoBand`).
- The crop box is never inverted (`Crop.ContentBox`). The last content column and the last
  content row fall outside the half-open box.
- `trim` keeps columns up to `int(w - w * 0.03)`, so it removes `ceil(3w/100)` columns on the
  right (`Trim.TrimBounds`).
- Every image smaller than the grid after crop and trim fails (`Pipeline.SmallImageFails`). Some
  cell is empty, and its mean cannot be taken: `avg` divides by zero in decode/decode.py, and
  `reduce` of an empty list fails first in decode.py. For such inputs the model returns
  `Err(EmptyCell(row, col))`.

## Model

| member | source | states |
|---|---|---|
| `Bands.Bound` | decode/decode.py:96-97 | `bound(i)` for `i <= N` never exceeds the length it divides |
| `Bands.BoundLast` | decode/decode.py:100-102 | the last band ends at the full length: `bound(NR) = h` |
| `Bands.BoundFirst` | decode.py:102-103 | `bound(0)` is 1 exactly when `N` does not divide the length, else 0 |
| `Bands.BandSize` | decode/decode.py:121-122 | every band is within one line of `len / N`, counting an inverted band as negative |
| `Bands.BoundMonotone` | decode/decode.py:96-97 | once the length is at least `N`, or `N` divides it, the bounds never decrease |
| `Bands.BandsDivisible` | decode.py:125-126 | when `N` divides the length, `bound(i) = i * (len / N)`: equal bands covering `[0, len)` |
| `Bands.FirstLineInNoBand` | decode.py:102-111 | when the length is at least `N` and `N` does not divide it, no band starts before line 1, so line 0 is dropped |
| `Bands.BandOf` | decode/decode.py:99-105 | once the bounds rise, every line in `[bound(0), len)` lies in exactly one band |
| `Bands.ShortLengthHasEmptyBand` | decode/decode.py:100-103 | a length below `N` always leaves some band empty or inverted |
| `Bands.EightBandQuirks` | decode.py:106-109 | with 8 bands, height 10 gives an empty band 1 and a two-line band 3; height 1 gives an inverted band 0 |
| `Raster.Region` | decode/decode.py:78 | `crop((l, t, r, b))` keeps the half-open box, each sample at its offset; an inverted box is empty |
| `Raster.Column` | decode/decode.py:50 | `[pxl[c, r] for r in rows]` has one sample per row, sample `r` being row `r` of column `c` |
| `Raster.Row` | decode/decode.py:57 | `[pxl[c, r] for c in cols]` has one sample per column |
| `Raster.Data` | decode/decode.py:145 | `getdata()`: every sample, row by row; its length is stated by `DataLength` |
| `Raster.DataLength` | decode/decode.py:145 | `getdata()` yields exactly `w * h` samples |
| `Stats.Total` | decode/decode.py:156-160 | `avg`'s accumulator loop returns the sum of the list |
| `Stats.Sum` | decode.py:154-155 | `reduce(lambda x, y: x + y, l)`: the samples added from the front; `Total` is proved to compute it |
| `Stats.SumBetween` | decode.py:154-160 | when every sample lies in `[lo, hi]`, the sum lies in `[lo * n, hi * n]`, so the mean lies in `[lo, hi]` |
| `Stats.Passes` | decode/decode.py:51 | every mean comparison of both files (decode/decode.py lines 51, 58, 66, 74 and 146; decode.py lines 59, 66, 74, 82 and 149), by cross-multiplying; its meaning is stated by `PassesIsMeanTest` |
| `Stats.PassesIsMeanTest` | decode.py:157-160 | the cross-multiplied test agrees with comparing the exact mean `sum / n` to the bound |
| `Config.Grayscale` | decode/decode.py:5-12 | NR = 8, NC = 10, content when the mean exceeds BKGRND = 25, `1` when the mean is below PUNCHED = 240 and `-` otherwise (as `entry` at decode/decode.py:146-149) |
| `Config.OneBit` | decode.py:5-6 | NR = 8, NC = 10, content when the mean exceeds 0.2 (decode.py lines 59, 66, 74, 82), `-` when the mean exceeds 0.95 and `1` otherwise (decode.py lines 149-152) |
| `Config.LeftTrim` | decode/decode.py:8 | LRAT = 0.15, in both files |
| `Config.RightTrim` | decode/decode.py:9 | RRAT = 0.03, in both files |
| `Config.ConfigsValid` | decode.py:5-6 | both configurations have at least one row and column, valid bounds and two distinct non-newline symbols, so `Pipeline.Run` and `Pipeline.Output` accept them |
| `Config.GrayscaleThresholds` | decode/decode.py:11-12 | under `Grayscale`, a line is content iff its exact mean exceeds 25, and a cell passes (`1`) iff its exact mean is below 240 |
| `Config.OneBitThresholds` | decode.py:147-152 | under `OneBit`, a line is content iff its exact mean exceeds 0.2, and a cell passes (`-`) iff its exact mean exceeds 0.95 |
| `Config.TrimRatios` | decode.py:8-9 | `LeftTrim` is exactly 0.15 and `RightTrim` exactly 0.03 |
| `Binarize.Point` | decode/decode.py:35 | each channel becomes 0 or 255, and 255 exactly when it is at least 130 |
| `Binarize.PointRgb` | decode/decode.py:35 | `point` thresholds each of the three bands on its own: each becomes 0 or 255, and 255 exactly when it is at least 130 |
| `Binarize.PointImage` | decode/decode.py:34-35 | `point` keeps the extent and thresholds every channel of every pixel |
| `Binarize.PointImageIdempotent` | decode/decode.py:35 | thresholding a thresholded image changes nothing |
| `Binarize.Light` | decode.py:38-40 | the test of decode.py's `bw`: all three channels exceed 80 |
| `Binarize.Binarized` | decode.py:36-43 | the binarised image keeps the source's extent; each pixel is set exactly when `Light` holds |
| `Binarize.Bw` | decode.py:30-43 | a fresh w x h buffer: pixel (c, r) is 1 iff all three channels exceed 80, else 0; read back, it is the binarised image |
| `Crop.First` | decode/decode.py:48-53 | forward scan with `break`: the first set flag, all earlier ones clear; 0 when none is set |
| `Crop.Last` | decode/decode.py:62-68 | backward scan with `break`: the last set flag, all later ones clear; the length when none is set |
| `Crop.FirstIsLeast` | decode/decode.py:48-53 | a set flag with only clear flags before it is what the forward scan stops at |
| `Crop.LastIsGreatest` | decode/decode.py:62-68 | a set flag with only clear flags after it is what the backward scan stops at |
| `Crop.ColumnIsContent` | decode/decode.py:50-51 | a column is content when its mean passes the background test |
| `Crop.RowIsContent` | decode/decode.py:57-58 | a row is content when its mean passes the background test |
| `Crop.ContentBox` | decode/decode.py:48-76 | the box satisfies `0 <= lft <= rht <= w` and `0 <= top <= bot <= h`: never inverted, always inside the image |
| `Crop.ColumnEdges` | decode.py:56-76 | `lft` is the least column with mean above the threshold and `rht` the greatest; with none, 0 and `w` |
| `Crop.RowEdges` | decode.py:63-84 | `top` is the least row with mean above the threshold and `bot` the greatest; with none, 0 and `h` |
| `Crop.FindBox` | decode/decode.py:41-76 | the four early-exit scans together return exactly `ContentBox` |
| `Crop.ScanLeft` | decode/decode.py:48-53 | the `lft` loop returns the first column whose mean exceeds the background, else 0 |
| `Crop.ScanTop` | decode/decode.py:55-60 | the `top` loop returns the first row whose mean exceeds the background, else 0 |
| `Crop.ScanRight` | decode.py:70-76 | the `rht` loop over the reversed columns returns the last content column, else `w` |
| `Crop.ScanBottom` | decode.py:78-84 | the `bot` loop over the reversed rows returns the last content row, else `h` |
| `Crop.CropToContent` | decode/decode.py:78 | the cropped image is `rht - lft` columns wide and `bot - top` rows high, so the last content column and row are cut off |
| `Crop.CropSamples` | decode.py:86 | each sample of the cropped image is the sample at the same offset from the box's top-left corner |
| `Crop.BlankCropIsIdentity` | decode.py:56-86 | an image with no content line crops to the box (0, 0, w, h), which is the whole image |
| `Crop.SingleContentColumnCropsToNothing` | decode/decode.py:62-78 | a single content column gives `lft = rht`, so the half-open crop is zero columns wide |
| `Trim.TrimBounds` | decode/decode.py:85-86 | `l = floor(15w/100)`, `w - r = ceil(3w/100)`, and `0 <= l <= r <= w` |
| `Trim.TrimImage` | decode.py:90-96 | trim keeps the height, keeps `r - l` columns, and shifts each sample by `l` |
| `Segment.RowBand` | decode/decode.py:101-103 | band `i` has the full width, `max(0, bound(i+1) - bound(i))` rows, and its samples start at row `bound(i)` |
| `Segment.BandCell` | decode/decode.py:126-128 | cell `j` of a band has the band's height, `max(0, bound(j+1) - bound(j))` columns, and its samples start at column `bound(j)` |
| `Segment.RowBands` | decode.py:105-112 | `rows` yields NR bands, band `i` being `RowBand(i)` |
| `Segment.BandCells` | decode.py:128-135 | `cols` yields NC cells of the band, cell `j` being `BandCell(j)` |
| `Segment.Card` | decode.py:114-119 | `cells` yields one list of cells per band, in band order |
| `Segment.Rows` | decode/decode.py:99-107 | the `append` loop yields exactly the NR bands `RowBand(0..NR-1)` in order |
| `Segment.Cols` | decode/decode.py:124-131 | the `append` loop yields exactly the NC cells `BandCell(0..NC-1)` in order |
| `Segment.Cells` | decode/decode.py:109-115 | the `append` loop yields the cells of every band, band by band |
| `Classify.Entry` | decode/decode.py:144-149 | no symbol exactly for a cell with no rows or columns, whose mean cannot be taken; otherwise the configuration's symbol for a passing test and the other one for a failing test |
| `Classify.GrayscaleEntry` | decode/decode.py:146-149 | a non-empty cell is `1` iff its mean is below 240, else `-` |
| `Classify.OneBitEntry` | decode.py:147-152 | a non-empty cell is `-` iff its mean exceeds 0.95, else `1` |
| `Classify.DecodeBand` | decode/decode.py:136-140 | a band's symbols, one per cell in order, or the first empty cell of the band |
| `Classify.DecodeCard` | decode/decode.py:133-142 | the grid has one row per band and one symbol per cell, each symbol being that cell's `entry`; or the first empty cell in row-major order |
| `Classify.GridSymbols` | decode.py:137-145 | every symbol of a decoded grid is one of the configuration's two symbols |
| `Classify.FirstEmptyIsFailure` | decode.py:141-143 | an empty cell preceded in row-major order only by non-empty cells is the one reported |
| `Classify.Decode` | decode.py:137-145 | the nested `append` loops with the inlined mean test return exactly `DecodeCard` |
| `Classify.DecodeLine` | decode/decode.py:136-140 | the inner loop over one band returns exactly `DecodeBand`, stopping at the first empty cell |
| `Classify.FirstEmptyInBand` | decode/decode.py:137-139 | an empty cell with only non-empty cells before it is the one a band reports |
| `Render.SplitPiece` | decode/decode.py:153 | a newline-free piece splits into itself, and a newline after it starts the next piece |
| `Render.SplitText` | decode/decode.py:151-154 | splitting the printed text on newlines gives back the rows |
| `Render.TextLength` | decode.py:20-21 | text of `k` rows of width `m` has `k * (m + 1) - 1` characters |
| `Render.Text` | decode/decode.py:152-153 | the printed text has as many characters as the grid's symbols plus one newline between consecutive rows; `SplitText` gives the rows back |
| `Pipeline.DecodePrepared` | decode/decode.py:20-22 | on success, NR rows of NC symbols, each one of the two symbols |
| `Pipeline.DecodeImage` | decode/decode.py:18-22 | the same shape for crop, trim, rows, cells and decode together |
| `Pipeline.Prepared` | decode/decode.py:18-19 | the image `rows` receives: cropped to its content, then trimmed; always well formed |
| `Pipeline.Output` | decode/decode.py:18-23 | text is printed exactly when decoding succeeds, and splitting that text on newlines gives the decoded grid back; otherwise the failure is decode's |
| `Pipeline.Run` | decode/decode.py:14-25 | `main` from `crop` to printing returns exactly `Output` |
| `Pipeline.RunRgb` | decode.py:11-22 | decode.py's `main` on an RGB image binarises with `bw` and then decodes |
| `Pipeline.TextShape` | decode/decode.py:151-154 | the text of a well-shaped grid splits back into it, and its length is NR * (NC + 1) - 1 |
| `Pipeline.OutputShape` | decode.py:19-22 | what is printed is NR lines of NC symbols, and those lines are the decoded grid |
| `Pipeline.EmptyIffNoArea` | decode/decode.py:156-160 | a cell has no samples exactly when it has no rows or no columns |
| `Pipeline.EmptyCellFails` | decode/decode.py:144-145 | a band or cell with an empty or inverted bound interval stops the decoder |
| `Pipeline.SmallImageFails` | decode.py:98-112 | after crop and trim, an image shorter than NR or narrower than NC always fails with an empty cell |
| `Pipeline.NoPixelsFails` | decode/decode.py:44-60 | an image with no pixels runs none of `crop`'s scans, but every cell is then empty and nothing is printed |
| `Pipeline.DivisibleImageDecodes` | decode/decode.py:121-130 | when NR divides the height and NC the width, each at least as large as its divisor, every cell is non-empty and a grid is printed |

## Left out

- Reading the image (`Image.open`, `sys.argv`) and the final `print`. The pipeline takes the pixel grid as a value and returns the text.
- The diagnostics: `log`, `ilog`, `lbuf`, `write_log`, `time.strftime`, `time.clock` and the PNG dumps. None of them affects the output.
- PIL's `convert('L')` luma weighting after the grayscale threshold, and `convert('1')` for non-RGB input to the 1-bit decoder. Their code is not part of this model. `Pipeline.Run` takes their output as a given single-channel raster.
- `Binarize.Bw`: the buffer stores 1 or 0 as the code writes them. Whether PIL's 1-bit pixel access reads a set pixel back as 1 or as 255 is the parameter `hi` of `Binarize.ReadBack`.
- Floating point. `avg` divides in floating point, and `trim` multiplies by 0.15 and 0.03. The model uses exact rationals and cross-multiplied integer comparisons. Double rounding in those expressions is not modelled.
- `Stats.Total`: Python accumulates into a float. The model's sum is an unbounded integer, which agrees only while the sum stays an exactly representable double.
- PIL's `crop` of a box reaching outside the image pads with zeros. This is not modelled, because every box the code builds is proved to lie inside the image. That a box with its right edge left of its left edge gives an empty image follows classic PIL's lazy crop, whose code is not part of this model.
- `Pipeline.Run` and `Crop.FindBox` require an image with both columns and rows, or with neither. An image with columns but no rows, or rows but no columns, would fail in `crop`'s own `avg`, and that failure is not modelled.
- `Classify.Result`: the failure records the row and column of the first empty cell. The source's exception carries no position. In both files the failure means nothing is printed.
- The in-place `cols.reverse()` / `rows.reverse()` of `crop` are modelled as descending scans. Summing a row in reversed column order gives the same sum.
- The commented-out `cProfile` lines.
