/** The constants that tell the two decoders apart. Both cut the card into 8 rows of 10 cells and
    share the trim ratios; they differ in the background test of the crop and in the cell test. */
module Config {
  import opened Stats

  /** `rows`, `cols`: NR and NC. `background`: the mean a crop line must pass to count as content.
      `cell`: the mean test of `entry`, which yields `whenPasses` or else `otherwise`. */
  datatype Config = Config(
    rows: nat,
    cols: nat,
    background: Test,
    cell: Test,
    whenPasses: char,
    otherwise: char)
  {
    predicate Valid() {
      && rows >= 1 && cols >= 1
      && background.bound.Valid() && cell.bound.Valid()
      && whenPasses != otherwise
      && whenPasses != '\n' && otherwise != '\n'
    }
  }

  /** decode/decode.py: a line is content when its mean exceeds BKGRND = 25; a cell whose mean is
      below PUNCHED = 240 is '1', any other is '-'. The file's own comment calls PUNCHED the least
      mean of a punched cell, so a punched cell is the one printed '-'. */
  const Grayscale := Config(8, 10, Exceeds(Ratio(25, 1)), Below(Ratio(240, 1)), '1', '-')

  /** decode.py: a line is content when its mean exceeds 0.2; a cell whose mean exceeds 0.95 is
      '-', any other is '1'. */
  const OneBit := Config(8, 10, Exceeds(Ratio(1, 5)), Exceeds(Ratio(19, 20)), '-', '1')

  /** The trim ratios LRAT = 0.15 and RRAT = 0.03 of both files. */
  const LeftTrim := Ratio(15, 100)
  const RightTrim := Ratio(3, 100)

  /** Both decoders' configurations meet what the pipeline asks of a configuration. */
  lemma ConfigsValid()
    ensures Grayscale.Valid() && OneBit.Valid()
  {
  }

  /** decode/decode.py's two tests, read as comparisons of the exact mean: a line is content when
      its mean exceeds 25, and a cell is '1' when its mean is below 240. */
  lemma GrayscaleThresholds(sum: int, n: nat)
    requires n >= 1
    ensures Passes(Grayscale.background, sum, n) <==> Mean(sum, n) > 25.0
    ensures Passes(Grayscale.cell, sum, n) <==> Mean(sum, n) < 240.0
    ensures Grayscale.whenPasses == '1' && Grayscale.otherwise == '-'
  {
    PassesIsMeanTest(Grayscale.background, sum, n);
    PassesIsMeanTest(Grayscale.cell, sum, n);
  }

  /** decode.py's two tests, read as comparisons of the exact mean: a line is content when its
      mean exceeds 0.2, and a cell is '-' when its mean exceeds 0.95. */
  lemma OneBitThresholds(sum: int, n: nat)
    requires n >= 1
    ensures Passes(OneBit.background, sum, n) <==> Mean(sum, n) > 0.2
    ensures Passes(OneBit.cell, sum, n) <==> Mean(sum, n) > 0.95
    ensures OneBit.whenPasses == '-' && OneBit.otherwise == '1'
  {
    PassesIsMeanTest(OneBit.background, sum, n);
    PassesIsMeanTest(OneBit.cell, sum, n);
    assert OneBit.background.bound.Value() == 0.2;
    assert OneBit.cell.bound.Value() == 0.95;
  }

  /** LRAT and RRAT as exact fractions: 0.15 and 0.03. */
  lemma TrimRatios()
    ensures LeftTrim.Valid() && LeftTrim.Value() == 0.15
    ensures RightTrim.Valid() && RightTrim.Value() == 0.03
  {
  }
}
