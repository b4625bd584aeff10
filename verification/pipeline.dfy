/** `main`: crop, trim, rows, cells, decode and print, for either decoder's configuration. */
module Pipeline {
  import opened Raster
  import opened Config
  import opened Bands
  import opened Crop
  import opened Trim
  import opened Segment
  import opened Classify
  import opened Render
  import opened Binarize

  /** The image `rows` receives: cropped to its content, then trimmed. */
  function Prepared(cfg: Config, img: Raster<int>): (out: Raster<int>)
    requires img.Valid()
    ensures out.Valid()
  {
    TrimImage(CropToContent(cfg, img))
  }

  /** A grid of NR rows of NC symbols, each one of the configuration's two symbols. */
  predicate WellShaped(cfg: Config, grid: seq<seq<char>>) {
    && |grid| == cfg.rows
    && (forall i :: 0 <= i < |grid| ==> |grid[i]| == cfg.cols)
    && (forall i, j :: 0 <= i < |grid| && 0 <= j < |grid[i]| ==>
      grid[i][j] == cfg.whenPasses || grid[i][j] == cfg.otherwise)
  }

  /** `rows`, `cells` and `decode` on the prepared image. */
  function DecodePrepared(cfg: Config, p: Raster<int>): (r: Result<seq<seq<char>>>)
    requires cfg.Valid() && p.Valid()
    ensures r.Ok? ==> WellShaped(cfg, r.value)
  {
    var card := Card(cfg, RowBands(cfg, p));
    var r := DecodeCard(cfg, card);
    if r.Ok? then
      assert forall i :: 0 <= i < cfg.rows ==> |card[i]| == cfg.cols;
      GridSymbols(cfg, card);
      r
    else r
  }

  /** The grid `decode` returns for a binarised image, or the first empty cell. */
  function DecodeImage(cfg: Config, img: Raster<int>): (r: Result<seq<seq<char>>>)
    requires cfg.Valid() && img.Valid()
    ensures r.Ok? ==> WellShaped(cfg, r.value)
  {
    DecodePrepared(cfg, Prepared(cfg, img))
  }

  /** What the decoder prints, or the failure that stops it before printing. */
  function Output(cfg: Config, img: Raster<int>): (r: Result<string>)
    requires cfg.Valid() && img.Valid()
    ensures r.Ok? <==> DecodeImage(cfg, img).Ok?
    ensures r.Ok? ==> Split(r.value) == DecodeImage(cfg, img).value
    ensures r.Err? ==> r.failure == DecodeImage(cfg, img).failure
  {
    match DecodeImage(cfg, img)
    case Ok(grid) => TextShape(cfg, grid); Ok(Text(grid))
    case Err(f) => Err(f)
  }

  /** `main` from `crop` on, for a binarised image that has both columns and rows or neither. */
  method Run(cfg: Config, img: Raster<int>) returns (out: Result<string>)
    requires cfg.Valid() && img.Valid() && (img.w == 0 <==> img.h == 0)
    ensures out == Output(cfg, img)
  {
    var box := FindBox(cfg, img);
    var cropped := Region(img, box.left, box.top, box.right, box.bottom);
    var trimmed := TrimImage(cropped);
    var rs := Rows(cfg, trimmed);
    var cs := Cells(cfg, rs);
    var prg := Classify.Decode(cfg, cs);
    match prg
    case Ok(grid) => out := Ok(Text(grid));
    case Err(f) => out := Err(f);
  }

  /** decode.py's `main` for an RGB image: `bw` fills the 1-bit buffer, which is read back with
      `hi` for a set pixel and decoded. */
  method RunRgb(src: Raster<Rgb>, hi: nat) returns (out: Result<string>)
    requires src.Valid() && (src.w == 0 <==> src.h == 0)
    ensures out == Output(OneBit, Binarized(src, hi))
  {
    var snk := Bw(src);
    out := Run(OneBit, ReadBack(snk, hi));
  }

  /** The text of a well-shaped grid splits back into it: NR lines of NC symbols. */
  lemma TextShape(cfg: Config, grid: seq<seq<char>>)
    requires cfg.Valid() && WellShaped(cfg, grid)
    ensures Split(Text(grid)) == grid
    ensures |Text(grid)| == cfg.rows * (cfg.cols + 1) - 1
  {
    forall i | 0 <= i < |grid|
      ensures NoNewline(grid[i])
    {
      forall k | 0 <= k < |grid[i]|
        ensures grid[i][k] != '\n'
      {
        assert grid[i][k] == cfg.whenPasses || grid[i][k] == cfg.otherwise;
      }
    }
    SplitText(grid);
    TextLength(grid, cfg.cols);
  }

  /** What is printed splits into NR lines of NC symbols, which are the grid `decode` built. */
  lemma OutputShape(cfg: Config, img: Raster<int>)
    requires cfg.Valid() && img.Valid() && Output(cfg, img).Ok?
    ensures DecodeImage(cfg, img).Ok?
    ensures Split(Output(cfg, img).value) == DecodeImage(cfg, img).value
    ensures |Split(Output(cfg, img).value)| == cfg.rows
    ensures forall i :: 0 <= i < cfg.rows ==> |Split(Output(cfg, img).value)[i]| == cfg.cols
    ensures |Output(cfg, img).value| == cfg.rows * (cfg.cols + 1) - 1
  {
    TextShape(cfg, DecodeImage(cfg, img).value);
  }

  /** A cell with no columns or no rows has no samples. */
  lemma EmptyIffNoArea(cell: Raster<int>)
    requires cell.Valid()
    ensures Empty(cell) <==> cell.w == 0 || cell.h == 0
  {
    DataLength(cell);
    if cell.w >= 1 && cell.h >= 1 {
      PositiveArea(cell.w, cell.h);
    }
  }

  /** A prepared image shorter than NR rows or narrower than NC columns always has an empty
      cell, so nothing is printed. */
  lemma SmallImageFails(cfg: Config, p: Raster<int>)
    requires cfg.Valid() && p.Valid()
    requires p.h < cfg.rows || p.w < cfg.cols
    ensures DecodePrepared(cfg, p).Err?
  {
    var i, j := 0, 0;
    if p.h < cfg.rows {
      i := ShortLengthHasEmptyBand(p.h, cfg.rows);
    } else {
      j := ShortLengthHasEmptyBand(p.w, cfg.cols);
    }
    EmptyCellFails(cfg, p, i, j);
  }

  /** An image with no pixels passes `crop` without a scan, but every cell is then empty, so
      nothing is printed. */
  lemma NoPixelsFails(cfg: Config, img: Raster<int>)
    requires cfg.Valid() && img.Valid() && img.w == 0 && img.h == 0
    ensures Output(cfg, img).Err?
  {
    var p := Prepared(cfg, img);
    assert p.h == 0;
    SmallImageFails(cfg, p);
  }

  /** A cell of the card without columns or rows stops the decoder. */
  lemma EmptyCellFails(cfg: Config, p: Raster<int>, i: nat, j: nat)
    requires cfg.Valid() && p.Valid() && i < cfg.rows && j < cfg.cols
    requires Bound(i + 1, p.h, cfg.rows) <= Bound(i, p.h, cfg.rows)
      || Bound(j + 1, p.w, cfg.cols) <= Bound(j, p.w, cfg.cols)
    ensures DecodePrepared(cfg, p).Err?
  {
    var band := RowBand(cfg, p, i);
    var cell := BandCell(cfg, band, j);
    assert cell.w == 0 || cell.h == 0;
    var card := Card(cfg, RowBands(cfg, p));
    assert card[i][j] == cell;
    EmptyIffNoArea(cell);
  }

  /** When NR divides the prepared height and NC the prepared width, and neither is too small,
      every cell has samples and a grid is printed. */
  lemma DivisibleImageDecodes(cfg: Config, p: Raster<int>)
    requires cfg.Valid() && p.Valid()
    requires p.h >= cfg.rows && p.h % cfg.rows == 0
    requires p.w >= cfg.cols && p.w % cfg.cols == 0
    ensures DecodePrepared(cfg, p).Ok?
  {
    var card := Card(cfg, RowBands(cfg, p));
    forall i, j | 0 <= i < cfg.rows && 0 <= j < cfg.cols
      ensures !Empty(card[i][j])
    {
      EvenBandsNonEmpty(i, p.h, cfg.rows);
      EvenBandsNonEmpty(j, p.w, cfg.cols);
      EmptyIffNoArea(card[i][j]);
    }
  }

  lemma EvenBandsNonEmpty(i: nat, len: nat, n: nat)
    requires n >= 1 && i < n && len >= n && len % n == 0
    ensures Bound(i + 1, len, n) - Bound(i, len, n) >= 1
  {
    BandsDivisible(i, len, n);
    BandsDivisible(i + 1, len, n);
    DivAddMultiple(len - n, 1, n);
    assert (len - n) / n >= 0;
  }
}
