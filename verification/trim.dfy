/** `trim`: cut fixed fractions of the width off both sides, keeping the full height. */
module Trim {
  import opened Raster
  import opened Config

  /** `l = int(w * LRAT)` and `r = int(w - w * RRAT)`, in exact arithmetic: `l` is w * 0.15
      rounded down, and `w - r` is w * 0.03 rounded up. The kept columns [l, r) never invert. */
  function TrimBounds(w: nat): (lr: (nat, nat))
    ensures lr.0 <= lr.1 <= w
    ensures 100 * lr.0 <= 15 * w < 100 * (lr.0 + 1)
    ensures 100 * (w - lr.1) >= 3 * w > 100 * (w - lr.1 - 1)
  {
    var l := (w * LeftTrim.num) / LeftTrim.den;
    var r := (w * RightTrim.den - w * RightTrim.num) / RightTrim.den;
    (l, r)
  }

  /** `im.crop((l, 0, r, h))`: the columns [l, r), every row. */
  function TrimImage(img: Raster<int>): (out: Raster<int>)
    requires img.Valid()
    ensures out.Valid() && out.h == img.h
    ensures out.w == TrimBounds(img.w).1 - TrimBounds(img.w).0
    ensures forall y, x :: 0 <= y < out.h && 0 <= x < out.w ==>
      out.px[y][x] == img.px[y][TrimBounds(img.w).0 + x]
  {
    var (l, r) := TrimBounds(img.w);
    Region(img, l, 0, r, img.h)
  }
}
