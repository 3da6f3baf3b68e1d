/** The marking helpers of src/project/detect_pole_backup.c: the bounds test
    in_image, the single-pixel mark mark_point_exact and the thick cross
    mark_point. */
module Pole {
  import opened Raster
  import Harris

  /** MARKER_THICKNESS: the width of each bar of the cross mark_point draws. */
  const MarkerThickness: int := 5

  /** MARKER_DIMENSIONS: the length of each bar. */
  const MarkerDimensions: int := 40

  // ---------------------------------------------------------------------
  // in_image

  /** in_image: 1 when (x, y) is a pixel position of im, 0 otherwise. */
  function InImage(im: Img, x: int, y: int): (r: int)
    ensures r == 0 || r == 1
    ensures r == 1 <==> 0 <= x < im.w && 0 <= y < im.h
  {
    if x < im.w && x >= 0 then
      if y < im.h && y >= 0 then 1 else 0
    else 0
  }

  // ---------------------------------------------------------------------
  // mark_point_exact

  /** The image after mark_point_exact: channels 0, 1 and 2 of p take shade
      when p is inside the image; everything else is kept. */
  function MarkedExact(im: Img, p: Harris.Point, shade: real): (r: Img)
    requires im.Valid()
    ensures r.Valid() && r.w == im.w && r.h == im.h && r.c == im.c
  {
    Tabulate(im.w, im.h, im.c, (x, y, z) requires im.Readable() =>
      if x == p.x && y == p.y && 0 <= z < 3 then shade else im.GetPixel(x, y, z))
  }

  /** mark_point_exact: three set_pixel calls at p, one per colour channel. */
  method MarkPointExact(im: Image, p: Harris.Point, shade: real)
    requires im.Valid()
    modifies im.data
    ensures im.View() == MarkedExact(old(im.View()), p, shade)
  {
    var x := p.x;
    var y := p.y;
    im.SetPixel(x, y, 0, shade);
    im.SetPixel(x, y, 1, shade);
    im.SetPixel(x, y, 2, shade);
    ExtEq(im.View(), MarkedExact(old(im.View()), p, shade));
  }

  /** A point that in_image rejects leaves the image unchanged; one it
      accepts gets shade in every colour channel the image has. */
  lemma MarkedExactAgreesWithInImage(im: Img, p: Harris.Point, shade: real)
    requires im.Valid()
    ensures InImage(im, p.x, p.y) == 0 ==> MarkedExact(im, p, shade) == im
    ensures InImage(im, p.x, p.y) == 1 ==>
      forall z :: 0 <= z < im.c && z < 3 ==> MarkedExact(im, p, shade).GetPixel(p.x, p.y, z) == shade
  {
    if InImage(im, p.x, p.y) == 0 {
      ExtEq(MarkedExact(im, p, shade), im);
    }
  }

  /** Marking the same point twice changes nothing more. */
  lemma MarkedExactIdempotent(im: Img, p: Harris.Point, shade: real)
    requires im.Valid()
    ensures MarkedExact(MarkedExact(im, p, shade), p, shade) == MarkedExact(im, p, shade)
  {
    var once := MarkedExact(im, p, shade);
    ExtEq(MarkedExact(once, p, shade), once);
  }

  // ---------------------------------------------------------------------
  // mark_point

  /** The crosses of the block [x0, x1) x [y0, y1) when the block is not
      empty; nothing otherwise. */
  predicate Covered(px: int, py: int, x0: int, x1: int, y0: int, y1: int, lo: int, hi: int)
  {
    x0 < x1 && y0 < y1 && Harris.InBlock(px, py, x0, x1, y0, y1, lo, hi)
  }

  /** Adding the cross at (x, y1) to those of the column block at x over
      [y0, y1) gives the crosses of the column over [y0, y1 + 1). */
  lemma ExtendColumn(px: int, py: int, x: int, y0: int, y1: int, lo: int, hi: int)
    requires y0 <= y1 && lo < hi
    ensures Covered(px, py, x, x + 1, y0, y1 + 1, lo, hi) <==>
      Covered(px, py, x, x + 1, y0, y1, lo, hi) || Harris.InBlock(px, py, x, x + 1, y1, y1 + 1, lo, hi)
  {
  }

  /** Adding the column block at x1 to the block [x0, x1) gives the block
      [x0, x1 + 1). */
  lemma ExtendBlock(px: int, py: int, x0: int, x1: int, y0: int, y1: int, lo: int, hi: int)
    requires x0 <= x1 && y0 < y1 && lo < hi
    ensures Covered(px, py, x0, x1 + 1, y0, y1, lo, hi) <==>
      Covered(px, py, x0, x1, y0, y1, lo, hi) || Harris.InBlock(px, py, x1, x1 + 1, y0, y1, lo, hi)
  {
  }

  /** The middle loop of mark_point at column x: a cross at every row of
      [y0, y1). */
  method MarkColumn(im: Image, x: int, y0: int, y1: int, lo: int, hi: int, colour: seq<real>)
    requires im.Valid() && |colour| == 3 && y0 < y1 && lo < hi
    modifies im.data
    ensures im.View() == Harris.Marked(old(im.View()), x, x + 1, y0, y1, lo, hi, colour)
  {
    ghost var before := im.View();
    for y := y0 to y1
      invariant forall px, py, z :: im.View().Inside(px, py, z) ==>
        im.View().GetPixel(px, py, z) ==
          if 0 <= z < 3 && Covered(px, py, x, x + 1, y0, y, lo, hi) then colour[z]
          else before.GetPixel(px, py, z)
    {
      ghost var prev := im.View();
      Harris.DrawCross(im, x, y, lo, hi, colour);
      forall px, py, z | im.View().Inside(px, py, z)
        ensures im.View().GetPixel(px, py, z) ==
          if 0 <= z < 3 && Covered(px, py, x, x + 1, y0, y + 1, lo, hi) then colour[z]
          else before.GetPixel(px, py, z)
      {
        ExtendColumn(px, py, x, y0, y, lo, hi);
        assert im.View().GetPixel(px, py, z) ==
          if 0 <= z < 3 && Harris.InBlock(px, py, x, x + 1, y, y + 1, lo, hi) then colour[z]
          else prev.GetPixel(px, py, z);
      }
    }
    ExtEq(im.View(), Harris.Marked(before, x, x + 1, y0, y1, lo, hi, colour));
  }

  /** The outer loops of a block of crosses: a column of crosses at every
      x of [x0, x1). */
  method MarkBlock(im: Image, x0: int, x1: int, y0: int, y1: int, lo: int, hi: int, colour: seq<real>)
    requires im.Valid() && |colour| == 3 && x0 < x1 && y0 < y1 && lo < hi
    modifies im.data
    ensures im.View() == Harris.Marked(old(im.View()), x0, x1, y0, y1, lo, hi, colour)
  {
    ghost var before := im.View();
    for x := x0 to x1
      invariant forall px, py, z :: im.View().Inside(px, py, z) ==>
        im.View().GetPixel(px, py, z) ==
          if 0 <= z < 3 && Covered(px, py, x0, x, y0, y1, lo, hi) then colour[z]
          else before.GetPixel(px, py, z)
    {
      ghost var prev := im.View();
      MarkColumn(im, x, y0, y1, lo, hi, colour);
      forall px, py, z | im.View().Inside(px, py, z)
        ensures im.View().GetPixel(px, py, z) ==
          if 0 <= z < 3 && Covered(px, py, x0, x + 1, y0, y1, lo, hi) then colour[z]
          else before.GetPixel(px, py, z)
      {
        ExtendBlock(px, py, x0, x, y0, y1, lo, hi);
        assert im.View().GetPixel(px, py, z) ==
          if 0 <= z < 3 && Harris.InBlock(px, py, x, x + 1, y0, y1, lo, hi) then colour[z]
          else prev.GetPixel(px, py, z);
      }
    }
    ExtEq(im.View(), Harris.Marked(before, x0, x1, y0, y1, lo, hi, colour));
  }

  /** The grey level shade in all three colour channels. */
  function Shade(shade: real): (colour: seq<real>)
    ensures |colour| == 3 && forall z :: 0 <= z < 3 ==> colour[z] == shade
  {
    [shade, shade, shade]
  }

  /** The image after mark_point: the crosses centred on the block
      [p.x - 2, p.x + 2) x [p.y - 2, p.y + 2), each reaching from offset -20
      up to offset 19, painted shade in channels 0, 1 and 2. */
  function MarkedPoint(im: Img, p: Harris.Point, shade: real): (r: Img)
    requires im.Valid()
  {
    var t, d := MarkerThickness / 2, MarkerDimensions / 2;
    Harris.Marked(im, p.x - t, p.x + t, p.y - t, p.y + t, -d, d, Shade(shade))
  }

  /** mark_point: for x over [p.x - 2, p.x + 2), y over [p.y - 2, p.y + 2)
      and i over [-20, 20), six set_pixel calls painting the row through
      (x, y) at x + i and the column at y + i, in channels 0, 1 and 2. */
  method MarkPoint(im: Image, p: Harris.Point, shade: real)
    requires im.Valid()
    modifies im.data
    ensures im.View() == MarkedPoint(old(im.View()), p, shade)
  {
    var xo := p.x;
    var yo := p.y;
    var t := MarkerThickness / 2;
    var d := MarkerDimensions / 2;
    MarkBlock(im, xo - t, xo + t, yo - t, yo + t, -d, d, Shade(shade));
  }

  /** The shape mark_point paints: a horizontal bar of rows p.y - 2 to
      p.y + 1 over columns p.x - 22 to p.x + 20, and a vertical bar of
      columns p.x - 2 to p.x + 1 over rows p.y - 22 to p.y + 20. The bars are
      four pixels thick, and reach two pixels further left and up than
      right and down. */
  lemma MarkPointBars(p: Harris.Point, px: int, py: int)
    ensures Harris.InBlock(px, py, p.x - 2, p.x + 2, p.y - 2, p.y + 2, -20, 20) <==>
      (p.y - 2 <= py <= p.y + 1 && p.x - 22 <= px <= p.x + 20) ||
      (p.x - 2 <= px <= p.x + 1 && p.y - 22 <= py <= p.y + 20)
  {
  }

  /** Every pixel of the bars takes shade in channels 0, 1 and 2, and every
      other value, channels 3 and up included, is kept. */
  lemma MarkedPointAt(im: Img, p: Harris.Point, shade: real, px: int, py: int, z: int)
    requires im.Valid() && im.Inside(px, py, z)
    ensures MarkedPoint(im, p, shade).GetPixel(px, py, z) ==
      if z < 3 && ((p.y - 2 <= py <= p.y + 1 && p.x - 22 <= px <= p.x + 20) ||
                   (p.x - 2 <= px <= p.x + 1 && p.y - 22 <= py <= p.y + 20))
      then shade else im.GetPixel(px, py, z)
  {
    MarkPointBars(p, px, py);
  }

  /** Marking the same point twice changes nothing more. */
  lemma MarkedPointIdempotent(im: Img, p: Harris.Point, shade: real)
    requires im.Valid()
    ensures MarkedPoint(MarkedPoint(im, p, shade), p, shade) == MarkedPoint(im, p, shade)
  {
    Harris.MarkedIdempotent(im, p.x - 2, p.x + 2, p.y - 2, p.y + 2, -20, 20, Shade(shade));
  }
}
