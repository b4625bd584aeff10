/** Pixel buffers as the decoders see them through PIL: a width, a height and rows of samples. */
module Raster {

  /** An image of `w` columns and `h` rows. `px[y][x]` is the sample PIL addresses as
      `pxl[x, y]` (column first). A crop can leave a width with no rows or rows of width zero,
      so the extent is kept apart from the samples. */
  datatype Raster<P> = Raster(w: nat, h: nat, px: seq<seq<P>>) {
    predicate Valid() {
      |px| == h && forall y :: 0 <= y < h ==> |px[y]| == w
    }
  }

  /** PIL's `crop((l, t, r, b))` for a box inside the image: the half-open region
      [l, r) x [t, b). A right edge left of the left edge (or a bottom above the top) is moved
      onto it, so an inverted box gives an empty image. */
  function Region<P>(img: Raster<P>, l: nat, t: nat, r: nat, b: nat): (out: Raster<P>)
    requires img.Valid()
    requires l <= img.w && r <= img.w && t <= img.h && b <= img.h
    ensures out.Valid()
    ensures out.w == (if r < l then 0 else r - l)
    ensures out.h == (if b < t then 0 else b - t)
    ensures forall y, x :: 0 <= y < out.h && 0 <= x < out.w ==> out.px[y][x] == img.px[t + y][l + x]
  {
    var r' := if r < l then l else r;
    var b' := if b < t then t else b;
    Raster(r' - l, b' - t, seq(b' - t, y requires 0 <= y < b' - t => img.px[t + y][l..r']))
  }

  /** The samples of column `x`, top to bottom: `[pxl[x, y] for y in rows]`. */
  function Column<P>(img: Raster<P>, x: nat): (col: seq<P>)
    requires img.Valid() && x < img.w
    ensures |col| == img.h
    ensures forall y :: 0 <= y < img.h ==> col[y] == img.px[y][x]
  {
    seq(img.h, y requires 0 <= y < img.h => img.px[y][x])
  }

  /** The samples of row `y`, left to right: `[pxl[x, y] for x in cols]`. */
  function Row<P>(img: Raster<P>, y: nat): (row: seq<P>)
    requires img.Valid() && y < img.h
    ensures |row| == img.w
  {
    img.px[y]
  }

  /** `im.getdata()`: every sample, row by row. */
  function Data<P>(img: Raster<P>): seq<P> {
    Flatten(img.px)
  }

  function Flatten<P>(rows: seq<seq<P>>): seq<P> {
    if rows == [] then [] else rows[0] + Flatten(rows[1..])
  }

  /** `getdata()` yields exactly one sample per pixel. */
  lemma DataLength<P>(img: Raster<P>)
    requires img.Valid()
    ensures |Data(img)| == img.w * img.h
  {
    FlattenLength(img.px, img.w);
  }

  lemma {:induction false} FlattenLength<P>(rows: seq<seq<P>>, w: nat)
    requires forall y :: 0 <= y < |rows| ==> |rows[y]| == w
    ensures |Flatten(rows)| == w * |rows|
  {
    if rows != [] {
      FlattenLength(rows[1..], w);
    }
  }
}
