/** `bw`: the RGB branches of the two decoders' binarisation. What PIL's `convert('L')` and
    `convert('1')` do afterwards or instead is not part of this model. */
module Binarize {
  import opened Raster

  datatype Rgb = Rgb(red: int, green: int, blue: int)

  // ---- decode/decode.py: `im.point(lambda x: 0 if x < 130 else 255)` on every channel ----

  /** The per-channel threshold: dark channels go to 0, the others to full intensity. */
  function Point(x: int): (y: int)
    ensures y == 0 || y == 255
    ensures y == 255 <==> x >= 130
  {
    if x < 130 then 0 else 255
  }

  /** `point` applies the threshold to each of the three bands separately. */
  function PointRgb(p: Rgb): (q: Rgb)
    ensures q.red == 255 <==> p.red >= 130
    ensures q.green == 255 <==> p.green >= 130
    ensures q.blue == 255 <==> p.blue >= 130
    ensures q.red in {0, 255} && q.green in {0, 255} && q.blue in {0, 255}
  {
    Rgb(Point(p.red), Point(p.green), Point(p.blue))
  }

  /** `im.point(...)` applied to every channel of every pixel. */
  function PointImage(img: Raster<Rgb>): (out: Raster<Rgb>)
    requires img.Valid()
    ensures out.Valid() && out.w == img.w && out.h == img.h
    ensures forall y, x :: 0 <= y < img.h && 0 <= x < img.w ==> out.px[y][x] == PointRgb(img.px[y][x])
  {
    Raster(img.w, img.h, seq(img.h, y requires 0 <= y < img.h =>
      seq(img.w, x requires 0 <= x < img.w => PointRgb(img.px[y][x]))))
  }

  /** Thresholding twice is thresholding once: the result is already two-level. */
  lemma PointImageIdempotent(img: Raster<Rgb>)
    requires img.Valid()
    ensures PointImage(PointImage(img)) == PointImage(img)
  {
    var once := PointImage(img);
    var twice := PointImage(once);
    forall y | 0 <= y < img.h
      ensures twice.px[y] == once.px[y]
    {
      forall x | 0 <= x < img.w
        ensures twice.px[y][x] == once.px[y][x]
      {
        var p := once.px[y][x];
        assert Point(p.red) == p.red && Point(p.green) == p.green && Point(p.blue) == p.blue;
      }
    }
  }

  // ---- decode.py: a new 1-bit image, 1 where all three channels exceed 80, else 0 ----

  /** The RGB test of decode.py's `bw`. */
  predicate Light(p: Rgb) {
    p.red > 80 && p.green > 80 && p.blue > 80
  }

  /** The two-level image `bw` describes, read back with `hi` for a set pixel (PIL's 1-bit
      pixel access returns either 1 or 255; which one is left open). */
  function Binarized(src: Raster<Rgb>, hi: nat): (out: Raster<int>)
    requires src.Valid()
    ensures out.Valid() && out.w == src.w && out.h == src.h
  {
    Raster(src.w, src.h, seq(src.h, y requires 0 <= y < src.h =>
      seq(src.w, x requires 0 <= x < src.w => if Light(src.px[y][x]) then hi else 0)))
  }

  /** A 1-bit buffer read back as a raster, with `hi` for a non-zero cell. */
  function ReadBack(snk: array2<int>, hi: nat): (out: Raster<int>)
    reads snk
    ensures out.Valid() && out.w == snk.Length0 && out.h == snk.Length1
  {
    Raster(snk.Length0, snk.Length1, seq(snk.Length1, y requires 0 <= y < snk.Length1 reads snk =>
      seq(snk.Length0, x requires 0 <= x < snk.Length0 reads snk => if snk[x, y] != 0 then hi else 0)))
  }

  /** The nested loops of `bw`: a fresh w x h buffer, each pixel written once, column by column. */
  method Bw(src: Raster<Rgb>) returns (snk: array2<int>)
    requires src.Valid()
    ensures fresh(snk) && snk.Length0 == src.w && snk.Length1 == src.h
    ensures forall x, y :: 0 <= x < src.w && 0 <= y < src.h ==>
      snk[x, y] == if Light(src.px[y][x]) then 1 else 0
    ensures forall hi: nat :: ReadBack(snk, hi) == Binarized(src, hi)
  {
    snk := new int[src.w, src.h];
    var c := 0;
    while c < src.w
      invariant 0 <= c <= src.w
      invariant forall x, y :: 0 <= x < c && 0 <= y < src.h ==>
        snk[x, y] == if Light(src.px[y][x]) then 1 else 0
    {
      var r := 0;
      while r < src.h
        invariant 0 <= r <= src.h
        invariant forall x, y :: 0 <= x < c && 0 <= y < src.h ==>
          snk[x, y] == if Light(src.px[y][x]) then 1 else 0
        invariant forall y :: 0 <= y < r ==> snk[c, y] == if Light(src.px[y][c]) then 1 else 0
      {
        var p := src.px[r][c];
        if p.red > 80 && p.green > 80 && p.blue > 80 {
          snk[c, r] := 1;
        } else {
          snk[c, r] := 0;
        }
        r := r + 1;
      }
      c := c + 1;
    }
    forall hi: nat
      ensures ReadBack(snk, hi) == Binarized(src, hi)
    {
      var a, b := ReadBack(snk, hi), Binarized(src, hi);
      forall y | 0 <= y < src.h
        ensures a.px[y] == b.px[y]
      {
        forall x | 0 <= x < src.w
          ensures a.px[y][x] == b.px[y][x]
        {
        }
      }
    }
  }
}
