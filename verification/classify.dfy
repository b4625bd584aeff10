/** `entry` and `decode`: the mean test that turns a cell into a symbol, and the nested loops that
    turn the card of cells into a grid of symbols. */
module Classify {
  import opened Raster
  import opened Stats
  import opened Config
  import Bands

  datatype Option<T> = None | Some(value: T)

  /** Where the decoder stops: the first cell, in row-major order, with no samples. The mean of
      an empty cell divides by zero (`avg` in decode/decode.py; `reduce` of an empty list fails
      first in decode.py). */
  datatype Failure = EmptyCell(row: nat, col: nat)

  datatype Result<T> = Ok(value: T) | Err(failure: Failure)

  /** A cell with no samples, whose mean is undefined. */
  predicate Empty(cell: Raster<int>) {
    |Data(cell)| == 0
  }

  /** `entry`: the symbol for a cell, or None where `avg` fails. */
  function Entry(cfg: Config, cell: Raster<int>): (r: Option<char>)
    requires cell.Valid()
    ensures r.None? <==> cell.w == 0 || cell.h == 0
    ensures r.Some? ==> r.value in {cfg.whenPasses, cfg.otherwise}
    ensures r.Some? && Passes(cfg.cell, Sum(Data(cell)), cell.w * cell.h) ==> r.value == cfg.whenPasses
    ensures r.Some? && !Passes(cfg.cell, Sum(Data(cell)), cell.w * cell.h) ==> r.value == cfg.otherwise
  {
    DataLength(cell);
    var samples := Data(cell);
    if |samples| == 0 then None
    else if Passes(cfg.cell, Sum(samples), |samples|) then Some(cfg.whenPasses)
    else Some(cfg.otherwise)
  }

  /** decode/decode.py: a non-empty cell is '1' exactly when its mean is below 240, and '-'
      otherwise. */
  lemma GrayscaleEntry(cell: Raster<int>)
    requires cell.Valid() && cell.w >= 1 && cell.h >= 1
    ensures Entry(Grayscale, cell) == Some('1') <==> Mean(Sum(Data(cell)), |Data(cell)|) < 240.0
    ensures Entry(Grayscale, cell) == Some('1') || Entry(Grayscale, cell) == Some('-')
  {
    DataLength(cell);
    PositiveArea(cell.w, cell.h);
    PassesIsMeanTest(Grayscale.cell, Sum(Data(cell)), |Data(cell)|);
  }

  /** decode.py: a non-empty cell is '-' exactly when its mean exceeds 0.95, and '1' otherwise. */
  lemma OneBitEntry(cell: Raster<int>)
    requires cell.Valid() && cell.w >= 1 && cell.h >= 1
    ensures Entry(OneBit, cell) == Some('-') <==> Mean(Sum(Data(cell)), |Data(cell)|) > 0.95
    ensures Entry(OneBit, cell) == Some('1') || Entry(OneBit, cell) == Some('-')
  {
    DataLength(cell);
    PositiveArea(cell.w, cell.h);
    PassesIsMeanTest(OneBit.cell, Sum(Data(cell)), |Data(cell)|);
    assert OneBit.cell.bound.Value() == 0.95;
  }

  lemma PositiveArea(w: nat, h: nat)
    requires w >= 1 && h >= 1
    ensures w * h >= 1
  {
    Bands.AtLeastOnce(w, h);
  }

  /** The symbols of the cells of band `i`, or the first of them that is empty. */
  function DecodeBand(cfg: Config, cells: seq<Raster<int>>, i: nat): (r: Result<seq<char>>)
    requires forall j :: 0 <= j < |cells| ==> cells[j].Valid()
    ensures r.Ok? <==> forall j :: 0 <= j < |cells| ==> !Empty(cells[j])
    ensures r.Ok? ==> |r.value| == |cells|
    ensures r.Ok? ==> forall j :: 0 <= j < |cells| ==> Entry(cfg, cells[j]) == Some(r.value[j])
    ensures r.Err? ==>
      && r.failure.row == i && r.failure.col < |cells| && Empty(cells[r.failure.col])
      && forall j :: 0 <= j < r.failure.col ==> !Empty(cells[j])
  {
    if cells == [] then Ok([])
    else
      var k := |cells| - 1;
      var before := DecodeBand(cfg, cells[..k], i);
      if before.Err? then before
      else match Entry(cfg, cells[k])
        case None => Err(EmptyCell(i, k))
        case Some(c) => Ok(before.value + [c])
  }

  predicate CardValid(card: seq<seq<Raster<int>>>) {
    forall i, j :: 0 <= i < |card| && 0 <= j < |card[i]| ==> card[i][j].Valid()
  }

  /** What `decode` returns: the grid of symbols, band by band and cell by cell, or the first
      empty cell in that order. */
  function DecodeCard(cfg: Config, card: seq<seq<Raster<int>>>): (r: Result<seq<seq<char>>>)
    requires CardValid(card)
    ensures r.Ok? <==> forall i, j :: 0 <= i < |card| && 0 <= j < |card[i]| ==> !Empty(card[i][j])
    ensures r.Ok? ==> |r.value| == |card|
    ensures r.Ok? ==> forall i :: 0 <= i < |card| ==> |r.value[i]| == |card[i]|
    ensures r.Ok? ==> forall i, j :: 0 <= i < |card| && 0 <= j < |card[i]| ==>
      Entry(cfg, card[i][j]) == Some(r.value[i][j])
    ensures r.Err? ==>
      && r.failure.row < |card| && r.failure.col < |card[r.failure.row]|
      && Empty(card[r.failure.row][r.failure.col])
      && (forall i, j :: 0 <= i < r.failure.row && 0 <= j < |card[i]| ==> !Empty(card[i][j]))
      && (forall j :: 0 <= j < r.failure.col ==> !Empty(card[r.failure.row][j]))
  {
    if card == [] then Ok([])
    else
      var k := |card| - 1;
      var before := DecodeCard(cfg, card[..k]);
      if before.Err? then before
      else match DecodeBand(cfg, card[k], k)
        case Err(f) => Err(f)
        case Ok(line) => Ok(before.value + [line])
  }

  /** Every symbol of a decoded grid is one of the configuration's two symbols. */
  lemma GridSymbols(cfg: Config, card: seq<seq<Raster<int>>>)
    requires CardValid(card) && DecodeCard(cfg, card).Ok?
    ensures forall i, j :: 0 <= i < |card| && 0 <= j < |card[i]| ==>
      DecodeCard(cfg, card).value[i][j] in {cfg.whenPasses, cfg.otherwise}
  {
    var grid := DecodeCard(cfg, card).value;
    forall i, j | 0 <= i < |card| && 0 <= j < |card[i]|
      ensures grid[i][j] in {cfg.whenPasses, cfg.otherwise}
    {
      assert Entry(cfg, card[i][j]) == Some(grid[i][j]);
    }
  }

  /** The nested loops of `decode`. An empty cell ends the run at once, as the exception does. */
  method Decode(cfg: Config, card: seq<seq<Raster<int>>>) returns (r: Result<seq<seq<char>>>)
    requires CardValid(card)
    ensures r == DecodeCard(cfg, card)
  {
    var prog := [];
    var i := 0;
    while i < |card|
      invariant 0 <= i <= |card|
      invariant DecodeCard(cfg, card[..i]) == Ok(prog)
    {
      var line := DecodeLine(cfg, card[i], i);
      assert card[..i + 1][..i] == card[..i];
      assert card[..i + 1][i] == card[i];
      if line.Err? {
        FirstEmptyIsFailure(cfg, card, i, line.failure.col);
        return Err(line.failure);
      }
      prog := prog + [line.value];
      i := i + 1;
    }
    assert card[..i] == card;
    r := Ok(prog);
  }

  /** The inner loop of `decode` over one band, with `entry` and the summing loop of `avg`
      inlined. */
  method DecodeLine(cfg: Config, row: seq<Raster<int>>, i: nat) returns (r: Result<seq<char>>)
    requires forall j :: 0 <= j < |row| ==> row[j].Valid()
    ensures r == DecodeBand(cfg, row, i)
  {
    var line := [];
    var j := 0;
    while j < |row|
      invariant 0 <= j <= |row|
      invariant DecodeBand(cfg, row[..j], i) == Ok(line)
    {
      var samples := Data(row[j]);
      assert row[..j + 1][..j] == row[..j];
      if |samples| == 0 {
        assert DecodeBand(cfg, row[..j + 1], i) == Err(EmptyCell(i, j));
        FirstEmptyInBand(cfg, row, i, j);
        return Err(EmptyCell(i, j));
      }
      var t := Total(samples);
      var c := if Passes(cfg.cell, t, |samples|) then cfg.whenPasses else cfg.otherwise;
      line := line + [c];
      j := j + 1;
    }
    assert row[..j] == row;
    r := Ok(line);
  }

  /** An empty cell with only non-empty cells before it is the failure a band reports. */
  lemma FirstEmptyInBand(cfg: Config, row: seq<Raster<int>>, i: nat, j: nat)
    requires forall k :: 0 <= k < |row| ==> row[k].Valid()
    requires j < |row| && Empty(row[j]) && forall k :: 0 <= k < j ==> !Empty(row[k])
    ensures DecodeBand(cfg, row, i) == Err(EmptyCell(i, j))
  {
    assert !DecodeBand(cfg, row, i).Ok?;
  }

  /** An empty cell with only non-empty cells before it, in row-major order, is the failure
      `decode` reports. */
  lemma FirstEmptyIsFailure(cfg: Config, card: seq<seq<Raster<int>>>, i: nat, j: nat)
    requires CardValid(card) && i < |card| && j < |card[i]| && Empty(card[i][j])
    requires forall i', j' :: 0 <= i' < i && 0 <= j' < |card[i']| ==> !Empty(card[i'][j'])
    requires forall j' :: 0 <= j' < j ==> !Empty(card[i][j'])
    ensures DecodeCard(cfg, card) == Err(EmptyCell(i, j))
  {
    assert !DecodeCard(cfg, card).Ok?;
  }
}
