/** `crop`: four edge scans find the box of content lines, then the image is cut to that box. */
module Crop {
  import opened Raster
  import opened Stats
  import opened Config

  /** A crop box `(lft, top, rht, bot)`, half-open on the right and bottom. */
  datatype Box = Box(left: nat, top: nat, right: nat, bottom: nat)

  /** Column `x` is content when the mean of its samples passes the background test. */
  predicate ColumnIsContent(cfg: Config, img: Raster<int>, x: nat)
    requires img.Valid() && x < img.w
  {
    Passes(cfg.background, Sum(Column(img, x)), img.h)
  }

  /** Row `y` is content when the mean of its samples passes the background test. */
  predicate RowIsContent(cfg: Config, img: Raster<int>, y: nat)
    requires img.Valid() && y < img.h
  {
    Passes(cfg.background, Sum(Row(img, y)), img.w)
  }

  function ColumnFlags(cfg: Config, img: Raster<int>): (f: seq<bool>)
    requires img.Valid()
    ensures |f| == img.w
    ensures forall x :: 0 <= x < img.w ==> f[x] == ColumnIsContent(cfg, img, x)
  {
    seq(img.w, x requires 0 <= x < img.w => ColumnIsContent(cfg, img, x))
  }

  function RowFlags(cfg: Config, img: Raster<int>): (f: seq<bool>)
    requires img.Valid()
    ensures |f| == img.h
    ensures forall y :: 0 <= y < img.h ==> f[y] == RowIsContent(cfg, img, y)
  {
    seq(img.h, y requires 0 <= y < img.h => RowIsContent(cfg, img, y))
  }

  /** A forward scan with `break`: the first set flag at or after `from`, or 0 when there is none. */
  function First(f: seq<bool>, from: nat): (k: nat)
    requires from <= |f|
    ensures (exists j :: from <= j < |f| && f[j]) ==>
      from <= k < |f| && f[k] && forall j :: from <= j < k ==> !f[j]
    ensures (forall j :: from <= j < |f| ==> !f[j]) ==> k == 0
    decreases |f| - from
  {
    if from == |f| then 0 else if f[from] then from else First(f, from + 1)
  }

  /** A backward scan with `break`: the last set flag before `upto`, or `|f|` when there is none. */
  function Last(f: seq<bool>, upto: nat): (k: nat)
    requires upto <= |f|
    ensures (exists j :: 0 <= j < upto && f[j]) ==>
      k < upto && f[k] && forall j :: k < j < upto ==> !f[j]
    ensures (forall j :: 0 <= j < upto ==> !f[j]) ==> k == |f|
  {
    if upto == 0 then |f| else if f[upto - 1] then upto - 1 else Last(f, upto - 1)
  }

  lemma FirstIsLeast(f: seq<bool>, k: nat)
    requires k < |f| && f[k] && forall j :: 0 <= j < k ==> !f[j]
    ensures First(f, 0) == k
  {
  }

  lemma LastIsGreatest(f: seq<bool>, k: nat)
    requires k < |f| && f[k] && forall j :: k < j < |f| ==> !f[j]
    ensures Last(f, |f|) == k
  {
  }

  /** The box the four scans of `crop` find. It is never inverted and lies within the image. */
  function ContentBox(cfg: Config, img: Raster<int>): (box: Box)
    requires img.Valid()
    ensures box.left <= box.right <= img.w && box.top <= box.bottom <= img.h
  {
    var cols, rows := ColumnFlags(cfg, img), RowFlags(cfg, img);
    Box(First(cols, 0), First(rows, 0), Last(cols, img.w), Last(rows, img.h))
  }

  /** `lft` is the first content column and `rht` the last one; with no content column they fall
      back to 0 and the full width. */
  lemma ColumnEdges(cfg: Config, img: Raster<int>)
    requires img.Valid()
    ensures var box := ContentBox(cfg, img);
      && ((exists x :: 0 <= x < img.w && ColumnIsContent(cfg, img, x)) ==>
        && box.right < img.w
        && ColumnIsContent(cfg, img, box.left) && ColumnIsContent(cfg, img, box.right)
        && (forall x :: 0 <= x < box.left ==> !ColumnIsContent(cfg, img, x))
        && (forall x :: box.right < x < img.w ==> !ColumnIsContent(cfg, img, x)))
      && ((forall x :: 0 <= x < img.w ==> !ColumnIsContent(cfg, img, x)) ==>
        box.left == 0 && box.right == img.w)
  {
    var cols := ColumnFlags(cfg, img);
    if exists x :: 0 <= x < img.w && ColumnIsContent(cfg, img, x) {
      var x :| 0 <= x < img.w && ColumnIsContent(cfg, img, x);
      assert cols[x];
    }
  }

  /** `top` is the first content row and `bot` the last one; with no content row they fall back
      to 0 and the full height. */
  lemma RowEdges(cfg: Config, img: Raster<int>)
    requires img.Valid()
    ensures var box := ContentBox(cfg, img);
      && ((exists y :: 0 <= y < img.h && RowIsContent(cfg, img, y)) ==>
        && box.bottom < img.h
        && RowIsContent(cfg, img, box.top) && RowIsContent(cfg, img, box.bottom)
        && (forall y :: 0 <= y < box.top ==> !RowIsContent(cfg, img, y))
        && (forall y :: box.bottom < y < img.h ==> !RowIsContent(cfg, img, y)))
      && ((forall y :: 0 <= y < img.h ==> !RowIsContent(cfg, img, y)) ==>
        box.top == 0 && box.bottom == img.h)
  {
    var rows := RowFlags(cfg, img);
    if exists y :: 0 <= y < img.h && RowIsContent(cfg, img, y) {
      var y :| 0 <= y < img.h && RowIsContent(cfg, img, y);
      assert rows[y];
    }
  }

  /** `im.crop((lft, top, rht, bot))`: the last content column and row fall outside the
      half-open box. */
  function CropToContent(cfg: Config, img: Raster<int>): (out: Raster<int>)
    requires img.Valid()
    ensures out.Valid()
    ensures var box := ContentBox(cfg, img);
      out.w == box.right - box.left && out.h == box.bottom - box.top
  {
    var box := ContentBox(cfg, img);
    Region(img, box.left, box.top, box.right, box.bottom)
  }

  /** Each sample of the cropped image is the sample at the same offset from the box's corner. */
  lemma CropSamples(cfg: Config, img: Raster<int>)
    requires img.Valid()
    ensures var box, out := ContentBox(cfg, img), CropToContent(cfg, img);
      forall y, x :: 0 <= y < out.h && 0 <= x < out.w ==> out.px[y][x] == img.px[box.top + y][box.left + x]
  {
    var box := ContentBox(cfg, img);
    CutSamples(img, box, CropToContent(cfg, img));
  }

  lemma CutSamples(img: Raster<int>, box: Box, out: Raster<int>)
    requires img.Valid() && box.left <= box.right <= img.w && box.top <= box.bottom <= img.h
    requires out == Region(img, box.left, box.top, box.right, box.bottom)
    ensures forall y, x :: 0 <= y < out.h && 0 <= x < out.w ==> out.px[y][x] == img.px[box.top + y][box.left + x]
  {
  }

  /** The scans of `crop`, each a loop that stops at the first content line. The right and bottom
      scans walk the reversed index lists; the order in which a row's samples are summed does
      not change the sum. An image with columns but no rows, or rows but no columns, makes
      `avg` divide by zero in the first scan over the non-empty dimension; an image with
      neither runs no scan at all. */
  method FindBox(cfg: Config, img: Raster<int>) returns (box: Box)
    requires img.Valid() && (img.w == 0 <==> img.h == 0)
    ensures box == ContentBox(cfg, img)
  {
    var lft := ScanLeft(cfg, img);
    var top := ScanTop(cfg, img);
    var rht := ScanRight(cfg, img);
    var bot := ScanBottom(cfg, img);
    box := Box(lft, top, rht, bot);
  }

  /** The `lft` loop: columns left to right until one has a mean above the background. Each
      column's `avg` needs at least one row. */
  method ScanLeft(cfg: Config, img: Raster<int>) returns (lft: nat)
    requires img.Valid() && (img.w >= 1 ==> img.h >= 1)
    ensures lft == First(ColumnFlags(cfg, img), 0)
  {
    ghost var cols := ColumnFlags(cfg, img);
    lft := 0;
    var x := 0;
    while x < img.w
      invariant 0 <= x <= img.w
      invariant forall j :: 0 <= j < x ==> !cols[j]
      invariant lft == 0
    {
      var a := Total(Column(img, x));
      if Passes(cfg.background, a, img.h) {
        lft := x;
        FirstIsLeast(cols, x);
        return;
      }
      x := x + 1;
    }
  }

  /** The `top` loop: rows top to bottom until one has a mean above the background. Each row's
      `avg` needs at least one column. */
  method ScanTop(cfg: Config, img: Raster<int>) returns (top: nat)
    requires img.Valid() && (img.h >= 1 ==> img.w >= 1)
    ensures top == First(RowFlags(cfg, img), 0)
  {
    ghost var rows := RowFlags(cfg, img);
    top := 0;
    var y := 0;
    while y < img.h
      invariant 0 <= y <= img.h
      invariant forall j :: 0 <= j < y ==> !rows[j]
      invariant top == 0
    {
      var a := Total(Row(img, y));
      if Passes(cfg.background, a, img.w) {
        top := y;
        FirstIsLeast(rows, y);
        return;
      }
      y := y + 1;
    }
  }

  /** The `rht` loop over the reversed columns: right to left until one has a mean above the
      background. */
  method ScanRight(cfg: Config, img: Raster<int>) returns (rht: nat)
    requires img.Valid() && (img.w >= 1 ==> img.h >= 1)
    ensures rht == Last(ColumnFlags(cfg, img), img.w)
  {
    ghost var cols := ColumnFlags(cfg, img);
    rht := img.w;
    var x := img.w;
    while x > 0
      invariant 0 <= x <= img.w
      invariant forall j :: x <= j < img.w ==> !cols[j]
      invariant rht == img.w
    {
      var a := Total(Column(img, x - 1));
      if Passes(cfg.background, a, img.h) {
        rht := x - 1;
        LastIsGreatest(cols, x - 1);
        return;
      }
      x := x - 1;
    }
  }

  /** The `bot` loop over the reversed rows: bottom to top until one has a mean above the
      background. */
  method ScanBottom(cfg: Config, img: Raster<int>) returns (bot: nat)
    requires img.Valid() && (img.h >= 1 ==> img.w >= 1)
    ensures bot == Last(RowFlags(cfg, img), img.h)
  {
    ghost var rows := RowFlags(cfg, img);
    bot := img.h;
    var y := img.h;
    while y > 0
      invariant 0 <= y <= img.h
      invariant forall j :: y <= j < img.h ==> !rows[j]
      invariant bot == img.h
    {
      var a := Total(Row(img, y - 1));
      if Passes(cfg.background, a, img.w) {
        bot := y - 1;
        LastIsGreatest(rows, y - 1);
        return;
      }
      y := y - 1;
    }
  }

  /** With no content line at all, every edge falls back to the image's own and the crop gives
      back the whole image. */
  lemma BlankCropIsIdentity(cfg: Config, img: Raster<int>)
    requires img.Valid()
    requires forall x :: 0 <= x < img.w ==> !ColumnIsContent(cfg, img, x)
    requires forall y :: 0 <= y < img.h ==> !RowIsContent(cfg, img, y)
    ensures ContentBox(cfg, img) == Box(0, 0, img.w, img.h)
    ensures CropToContent(cfg, img) == img
  {
    ColumnEdges(cfg, img);
    RowEdges(cfg, img);
    var out := CropToContent(cfg, img);
    assert out.w == img.w && out.h == img.h;
    forall y | 0 <= y < img.h
      ensures out.px[y] == img.px[y]
    {
      forall x | 0 <= x < img.w
        ensures out.px[y][x] == img.px[y][x]
      {
      }
    }
  }

  /** A single content column is cut away with everything else: the crop is zero columns wide. */
  lemma SingleContentColumnCropsToNothing(cfg: Config, img: Raster<int>, c: nat)
    requires img.Valid() && c < img.w && ColumnIsContent(cfg, img, c)
    requires forall x :: 0 <= x < img.w && ColumnIsContent(cfg, img, x) ==> x == c
    ensures CropToContent(cfg, img).w == 0
  {
    ColumnEdges(cfg, img);
  }
}
