/** `rows`, `cols` and `cells`: cut the trimmed image into NR row bands and each band into NC cells,
    at the boundaries `Bands.Bound` gives. */
module Segment {
  import opened Raster
  import opened Bands
  import opened Config

  /** The height or width of the half-open band [lo, hi), an inverted band being empty. */
  function Extent(lo: nat, hi: nat): nat {
    if hi < lo then 0 else hi - lo
  }

  /** Band `i` of `rows`: `im.crop((0, bound(i), w, bound(i + 1)))`, the full width and the rows
      [Bound(i), Bound(i + 1)) of the image. */
  function RowBand(cfg: Config, img: Raster<int>, i: nat): (band: Raster<int>)
    requires cfg.Valid() && img.Valid() && i < cfg.rows
    ensures band.Valid() && band.w == img.w
    ensures band.h == Extent(Bound(i, img.h, cfg.rows), Bound(i + 1, img.h, cfg.rows))
    ensures forall y, x :: 0 <= y < band.h && 0 <= x < img.w ==>
      band.px[y][x] == img.px[Bound(i, img.h, cfg.rows) + y][x]
  {
    Region(img, 0, Bound(i, img.h, cfg.rows), img.w, Bound(i + 1, img.h, cfg.rows))
  }

  /** What `rows` returns: NR bands, top to bottom. */
  function RowBands(cfg: Config, img: Raster<int>): (bands: seq<Raster<int>>)
    requires cfg.Valid() && img.Valid()
    ensures |bands| == cfg.rows
    ensures forall i :: 0 <= i < cfg.rows ==> bands[i] == RowBand(cfg, img, i)
  {
    seq(cfg.rows, i requires 0 <= i < cfg.rows => RowBand(cfg, img, i))
  }

  /** Cell `j` of `cols`: `row.crop((bound(j), 0, bound(j + 1), h))`, the columns
      [Bound(j), Bound(j + 1)) of the band and all its rows. */
  function BandCell(cfg: Config, band: Raster<int>, j: nat): (cell: Raster<int>)
    requires cfg.Valid() && band.Valid() && j < cfg.cols
    ensures cell.Valid() && cell.h == band.h
    ensures cell.w == Extent(Bound(j, band.w, cfg.cols), Bound(j + 1, band.w, cfg.cols))
    ensures forall y, x :: 0 <= y < band.h && 0 <= x < cell.w ==>
      cell.px[y][x] == band.px[y][Bound(j, band.w, cfg.cols) + x]
  {
    Region(band, Bound(j, band.w, cfg.cols), 0, Bound(j + 1, band.w, cfg.cols), band.h)
  }

  /** What `cols` returns for one band: NC cells, left to right. */
  function BandCells(cfg: Config, band: Raster<int>): (cells: seq<Raster<int>>)
    requires cfg.Valid() && band.Valid()
    ensures |cells| == cfg.cols
    ensures forall j :: 0 <= j < cfg.cols ==> cells[j] == BandCell(cfg, band, j)
  {
    seq(cfg.cols, j requires 0 <= j < cfg.cols => BandCell(cfg, band, j))
  }

  predicate AllValid(bands: seq<Raster<int>>) {
    forall i :: 0 <= i < |bands| ==> bands[i].Valid()
  }

  /** What `cells` returns: the cells of every band, band by band. */
  function Card(cfg: Config, bands: seq<Raster<int>>): (card: seq<seq<Raster<int>>>)
    requires cfg.Valid() && AllValid(bands)
    ensures |card| == |bands|
    ensures forall i :: 0 <= i < |bands| ==> card[i] == BandCells(cfg, bands[i])
  {
    seq(|bands|, i requires 0 <= i < |bands| => BandCells(cfg, bands[i]))
  }

  /** The loop of `rows`: one band appended per index. */
  method Rows(cfg: Config, img: Raster<int>) returns (bands: seq<Raster<int>>)
    requires cfg.Valid() && img.Valid()
    ensures bands == RowBands(cfg, img)
  {
    ghost var spec := RowBands(cfg, img);
    bands := [];
    var i := 0;
    while i < cfg.rows
      invariant 0 <= i <= cfg.rows
      invariant bands == spec[..i]
    {
      var t := Bound(i, img.h, cfg.rows);
      var b := Bound(i + 1, img.h, cfg.rows);
      var r := Region(img, 0, t, img.w, b);
      assert r == RowBand(cfg, img, i);
      bands := bands + [r];
      i := i + 1;
    }
  }

  /** The loop of `cols`: one cell appended per index. */
  method Cols(cfg: Config, band: Raster<int>) returns (cells: seq<Raster<int>>)
    requires cfg.Valid() && band.Valid()
    ensures cells == BandCells(cfg, band)
  {
    ghost var spec := BandCells(cfg, band);
    cells := [];
    var j := 0;
    while j < cfg.cols
      invariant 0 <= j <= cfg.cols
      invariant cells == spec[..j]
    {
      var l := Bound(j, band.w, cfg.cols);
      var r := Bound(j + 1, band.w, cfg.cols);
      var c := Region(band, l, 0, r, band.h);
      assert c == BandCell(cfg, band, j);
      cells := cells + [c];
      j := j + 1;
    }
  }

  /** The loop of `cells`: the cells of each band appended in band order. */
  method Cells(cfg: Config, bands: seq<Raster<int>>) returns (card: seq<seq<Raster<int>>>)
    requires cfg.Valid() && AllValid(bands)
    ensures card == Card(cfg, bands)
  {
    ghost var spec := Card(cfg, bands);
    card := [];
    var i := 0;
    while i < |bands|
      invariant 0 <= i <= |bands|
      invariant card == spec[..i]
    {
      var cs := Cols(cfg, bands[i]);
      card := card + [cs];
      i := i + 1;
    }
  }
}
