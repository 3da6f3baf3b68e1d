/** The optical-flow structure tensor of src/hw4/flow_image.c: the summed-area
    table, the box filter built on it, the five-channel time-structure matrix,
    the strided velocity image and the in-place clamp of pixel values. */
module Flow {
  import opened Raster
  import opened Filter
  import Process
  import Harris

  // ---------------------------------------------------------------------
  // Window sums

  /** Channel z of im summed down column i over rows y0 .. y1 - 1. */
  function ColumnRun(im: Img, z: int, i: int, y0: int, y1: int): real
    requires im.Readable() && 0 <= i < im.w && 0 <= y0 <= y1 <= im.h
    decreases y1 - y0
  {
    if y1 == y0 then 0.0 else ColumnRun(im, z, i, y0, y1 - 1) + im.GetPixel(i, y1 - 1, z)
  }

  /** Channel z of im summed over columns x0 .. x1 - 1 and rows y0 .. y1 - 1. */
  function WindowSum(im: Img, z: int, x0: int, x1: int, y0: int, y1: int): real
    requires im.Readable() && 0 <= x0 <= x1 <= im.w && 0 <= y0 <= y1 <= im.h
    decreases x1 - x0
  {
    if x1 == x0 then 0.0 else WindowSum(im, z, x0, x1 - 1, y0, y1) + ColumnRun(im, z, x1 - 1, y0, y1)
  }

  /** A column run from row 0 splits at any row y0. */
  lemma {:induction false} ColumnRunSplit(im: Img, z: int, i: int, y0: int, y1: int)
    requires im.Readable() && 0 <= i < im.w && 0 <= y0 <= y1 <= im.h
    ensures ColumnRun(im, z, i, 0, y1) == ColumnRun(im, z, i, 0, y0) + ColumnRun(im, z, i, y0, y1)
    decreases y1 - y0
  {
    if y1 > y0 {
      ColumnRunSplit(im, z, i, y0, y1 - 1);
    }
  }

  /** A window with no rows sums to 0. */
  lemma {:induction false} WindowNoRows(im: Img, z: int, x0: int, x1: int, y: int)
    requires im.Readable() && 0 <= x0 <= x1 <= im.w && 0 <= y <= im.h
    ensures WindowSum(im, z, x0, x1, y, y) == 0.0
    decreases x1 - x0
  {
    if x1 > x0 {
      WindowNoRows(im, z, x0, x1 - 1, y);
    }
  }

  /** Inclusion-exclusion: any window is the combination of the four
      windows anchored at the origin that its corners span. */
  lemma {:induction false} WindowFromCorners(im: Img, z: int, x0: int, x1: int, y0: int, y1: int)
    requires im.Readable() && 0 <= x0 <= x1 <= im.w && 0 <= y0 <= y1 <= im.h
    ensures WindowSum(im, z, 0, x1, 0, y1) - WindowSum(im, z, 0, x0, 0, y1)
          - WindowSum(im, z, 0, x1, 0, y0) + WindowSum(im, z, 0, x0, 0, y0)
         == WindowSum(im, z, x0, x1, y0, y1)
    decreases x1 - x0
  {
    if x1 > x0 {
      WindowFromCorners(im, z, x0, x1 - 1, y0, y1);
      ColumnRunSplit(im, z, x1 - 1, y0, y1);
    }
  }

  /** Every pixel of the image is at least 0. */
  ghost predicate Nonnegative(im: Img)
    requires im.Readable()
  {
    forall x, y, z :: im.Inside(x, y, z) ==> im.GetPixel(x, y, z) >= 0.0
  }

  lemma {:induction false} ColumnRunNonnegative(im: Img, z: int, i: int, y0: int, y1: int)
    requires im.Readable() && Nonnegative(im) && 0 <= z < im.c
    requires 0 <= i < im.w && 0 <= y0 <= y1 <= im.h
    ensures ColumnRun(im, z, i, y0, y1) >= 0.0
    decreases y1 - y0
  {
    if y1 > y0 {
      ColumnRunNonnegative(im, z, i, y0, y1 - 1);
      assert im.Inside(i, y1 - 1, z);
    }
  }

  /** Over a nonnegative image every window sum is at least 0. */
  lemma {:induction false} WindowNonnegative(im: Img, z: int, x0: int, x1: int, y0: int, y1: int)
    requires im.Readable() && Nonnegative(im) && 0 <= z < im.c
    requires 0 <= x0 <= x1 <= im.w && 0 <= y0 <= y1 <= im.h
    ensures WindowSum(im, z, x0, x1, y0, y1) >= 0.0
    decreases x1 - x0
  {
    if x1 > x0 {
      WindowNonnegative(im, z, x0, x1 - 1, y0, y1);
      ColumnRunNonnegative(im, z, x1 - 1, y0, y1);
    }
  }

  /** Over a nonnegative image an origin window does not shrink when it
      gains a row or a column. */
  lemma WindowMonotone(im: Img, z: int, x: int, y: int)
    requires im.Readable() && Nonnegative(im) && 0 <= z < im.c
    requires 0 < x <= im.w && 0 < y <= im.h
    ensures WindowSum(im, z, 0, x, 0, y - 1) <= WindowSum(im, z, 0, x, 0, y)
    ensures WindowSum(im, z, 0, x - 1, 0, y) <= WindowSum(im, z, 0, x, 0, y)
  {
    WindowFromCorners(im, z, 0, x, y - 1, y);
    WindowNonnegative(im, z, 0, x, y - 1, y);
    ColumnRunNonnegative(im, z, x - 1, 0, y);
  }

  // ---------------------------------------------------------------------
  // make_integral_image

  /** The value make_integral_image stores at (x, y) in channel z. Its guard
      is written on the neighbour VALUES: the diagonal cell is subtracted
      only when the cell above and the cell to the left are both nonzero. */
  function IntegralAt(im: Img, z: int, x: int, y: int): real
    requires im.Readable() && 0 <= x < im.w && 0 <= y < im.h
    decreases x + y
  {
    var above := if y > 0 then IntegralAt(im, z, x, y - 1) else 0.0;
    var left := if x > 0 then IntegralAt(im, z, x - 1, y) else 0.0;
    var corner := if above != 0.0 && left != 0.0 then IntegralAt(im, z, x - 1, y - 1) else 0.0;
    im.GetPixel(x, y, z) + above + left - corner
  }

  /** The image make_integral_image returns. */
  function Integral(im: Img): (r: Img)
    requires im.Valid()
    ensures r.Valid() && r.w == im.w && r.h == im.h && r.c == im.c
  {
    Tabulate(im.w, im.h, im.c, (x, y, z) requires im.Readable() && 0 <= x < im.w && 0 <= y < im.h =>
      IntegralAt(im, z, x, y))
  }

  /** The same recurrence with the guard on the coordinates, as the comment
      on make_integral_image describes it. */
  function FixedIntegralAt(im: Img, z: int, x: int, y: int): real
    requires im.Readable() && 0 <= x < im.w && 0 <= y < im.h
    decreases x + y
  {
    var above := if y > 0 then FixedIntegralAt(im, z, x, y - 1) else 0.0;
    var left := if x > 0 then FixedIntegralAt(im, z, x - 1, y) else 0.0;
    var corner := if x > 0 && y > 0 then FixedIntegralAt(im, z, x - 1, y - 1) else 0.0;
    im.GetPixel(x, y, z) + above + left - corner
  }

  /** The integral image with the corrected guard. */
  function FixedIntegral(im: Img): (r: Img)
    requires im.Valid()
    ensures r.Valid() && r.w == im.w && r.h == im.h && r.c == im.c
  {
    Tabulate(im.w, im.h, im.c, (x, y, z) requires im.Readable() && 0 <= x < im.w && 0 <= y < im.h =>
      FixedIntegralAt(im, z, x, y))
  }

  /** Row 0 of the integral image is the running sum along row 0, whatever
      the values: the guard never fires there. */
  lemma {:induction false} IntegralFirstRow(im: Img, z: int, x: int)
    requires im.Readable() && 0 <= x < im.w
    ensures IntegralAt(im, z, x, 0) == WindowSum(im, z, 0, x + 1, 0, 1)
  {
    assert ColumnRun(im, z, x, 0, 1) == im.GetPixel(x, 0, z);
    if x > 0 {
      IntegralFirstRow(im, z, x - 1);
    }
  }

  /** Column 0 of the integral image is the running sum down column 0,
      whatever the values. */
  lemma {:induction false} IntegralFirstColumn(im: Img, z: int, y: int)
    requires im.Readable() && 0 <= y < im.h
    ensures IntegralAt(im, z, 0, y) == ColumnRun(im, z, 0, 0, y + 1)
  {
    if y > 0 {
      IntegralFirstColumn(im, z, y - 1);
    }
  }

  /** The cell (x, y) of a window anchored at (x, y) of size 1 is the pixel. */
  lemma OnePixelWindow(im: Img, z: int, x: int, y: int)
    requires im.Readable() && 0 <= x < im.w && 0 <= y < im.h
    ensures WindowSum(im, z, x, x + 1, y, y + 1) == im.GetPixel(x, y, z)
  {
    assert ColumnRun(im, z, x, y, y + 1) == im.GetPixel(x, y, z);
  }

  /** The origin window one column wide is the column run. */
  lemma FirstColumnWindow(im: Img, z: int, y: int)
    requires im.Readable() && 0 <= y <= im.h
    ensures WindowSum(im, z, 0, 1, 0, y) == ColumnRun(im, z, 0, 0, y)
  {
  }

  /** The step of IntegralIsWindowSum at an interior cell: once the three
      earlier cells are origin window sums, so is (x, y). A zero neighbour
      forces the skipped diagonal window to be zero too. */
  lemma IntegralInteriorStep(im: Img, z: int, x: int, y: int)
    requires im.Readable() && Nonnegative(im) && 0 <= z < im.c
    requires 0 < x < im.w && 0 < y < im.h
    requires IntegralAt(im, z, x, y - 1) == WindowSum(im, z, 0, x + 1, 0, y)
    requires IntegralAt(im, z, x - 1, y) == WindowSum(im, z, 0, x, 0, y + 1)
    requires IntegralAt(im, z, x - 1, y - 1) == WindowSum(im, z, 0, x, 0, y)
    ensures IntegralAt(im, z, x, y) == WindowSum(im, z, 0, x + 1, 0, y + 1)
  {
    WindowFromCorners(im, z, x, x + 1, y, y + 1);
    OnePixelWindow(im, z, x, y);
    var above, left := IntegralAt(im, z, x, y - 1), IntegralAt(im, z, x - 1, y);
    if above == 0.0 || left == 0.0 {
      WindowMonotone(im, z, x + 1, y);
      WindowMonotone(im, z, x, y + 1);
      WindowNonnegative(im, z, 0, x, 0, y);
      assert WindowSum(im, z, 0, x, 0, y) == 0.0;
    }
  }

  /** For a nonnegative image each cell of the integral image is the sum of
      the pixels above and to the left of it, itself included. */
  lemma {:induction false} IntegralIsWindowSum(im: Img, z: int, x: int, y: int)
    requires im.Readable() && Nonnegative(im) && 0 <= z < im.c
    requires 0 <= x < im.w && 0 <= y < im.h
    ensures IntegralAt(im, z, x, y) == WindowSum(im, z, 0, x + 1, 0, y + 1)
    decreases x + y
  {
    if y == 0 {
      IntegralFirstRow(im, z, x);
    } else if x == 0 {
      IntegralFirstColumn(im, z, y);
      FirstColumnWindow(im, z, y + 1);
    } else {
      IntegralIsWindowSum(im, z, x, y - 1);
      IntegralIsWindowSum(im, z, x - 1, y);
      IntegralIsWindowSum(im, z, x - 1, y - 1);
      IntegralInteriorStep(im, z, x, y);
    }
  }

  /** With the guard on the coordinates the integral image is the
      summed-area table for every input. */
  lemma {:induction false} FixedIntegralIsWindowSum(im: Img, z: int, x: int, y: int)
    requires im.Readable() && 0 <= x < im.w && 0 <= y < im.h
    ensures FixedIntegralAt(im, z, x, y) == WindowSum(im, z, 0, x + 1, 0, y + 1)
    decreases x + y
  {
    if x > 0 {
      FixedIntegralIsWindowSum(im, z, x - 1, y);
    }
    if y > 0 {
      FixedIntegralIsWindowSum(im, z, x, y - 1);
    }
    if x > 0 && y > 0 {
      FixedIntegralIsWindowSum(im, z, x - 1, y - 1);
    }
    FixedIntegralStep(im, z, x, y);
  }

  /** The step of FixedIntegralIsWindowSum: once the earlier cells are origin
      window sums, so is (x, y). */
  lemma FixedIntegralStep(im: Img, z: int, x: int, y: int)
    requires im.Readable() && 0 <= x < im.w && 0 <= y < im.h
    requires x > 0 ==> FixedIntegralAt(im, z, x - 1, y) == WindowSum(im, z, 0, x, 0, y + 1)
    requires y > 0 ==> FixedIntegralAt(im, z, x, y - 1) == WindowSum(im, z, 0, x + 1, 0, y)
    requires x > 0 && y > 0 ==> FixedIntegralAt(im, z, x - 1, y - 1) == WindowSum(im, z, 0, x, 0, y)
    ensures FixedIntegralAt(im, z, x, y) == WindowSum(im, z, 0, x + 1, 0, y + 1)
  {
    WindowFromCorners(im, z, x, x + 1, y, y + 1);
    OnePixelWindow(im, z, x, y);
    WindowNoRows(im, z, 0, x + 1, 0);
  }

  /** What the value guard costs at an interior cell whose three earlier
      cells are origin window sums: when the cell above or the cell to the
      left holds 0 the diagonal window is not subtracted, and the cell
      exceeds its window sum by exactly that diagonal window. */
  lemma IntegralSkipError(im: Img, z: int, x: int, y: int)
    requires im.Readable() && 0 < x < im.w && 0 < y < im.h
    requires IntegralAt(im, z, x, y - 1) == WindowSum(im, z, 0, x + 1, 0, y)
    requires IntegralAt(im, z, x - 1, y) == WindowSum(im, z, 0, x, 0, y + 1)
    requires IntegralAt(im, z, x - 1, y - 1) == WindowSum(im, z, 0, x, 0, y)
    ensures IntegralAt(im, z, x, y) - WindowSum(im, z, 0, x + 1, 0, y + 1) ==
      if IntegralAt(im, z, x, y - 1) == 0.0 || IntegralAt(im, z, x - 1, y) == 0.0
      then WindowSum(im, z, 0, x, 0, y) else 0.0
  {
    WindowFromCorners(im, z, x, x + 1, y, y + 1);
    OnePixelWindow(im, z, x, y);
  }

  /** An input on which the value guard goes wrong: a 2x2 image whose column
      0 holds 1 above -1 and whose column 1 holds 0. The cell (0, 1) sums to
      0, the diagonal 1 is not subtracted, and cell (1, 1) reads 1 more than
      the sum of its window (the corrected recurrence gives the window sum,
      by FixedIntegralIsWindowSum). The coordinates are parameters fixed by
      the precondition. */
  lemma IntegralGuardExample(im: Img, x: int, y: int)
    requires x == 1 && y == 1 && im.Readable() && im.w == 2 && im.h == 2
    requires im.GetPixel(x - 1, y - 1, 0) == 1.0 && im.GetPixel(x - 1, y, 0) == -1.0
    requires im.GetPixel(x, y - 1, 0) == 0.0 && im.GetPixel(x, y, 0) == 0.0
    ensures IntegralAt(im, 0, x, y) - WindowSum(im, 0, 0, x + 1, 0, y + 1) == 1.0
  {
    IntegralFirstRow(im, 0, x - 1);
    IntegralFirstRow(im, 0, x);
    IntegralFirstColumn(im, 0, y);
    FirstColumnWindow(im, 0, y + 1);
    IntegralSkipError(im, 0, x, y);
    assert ColumnRun(im, 0, x - 1, 0, y + 1) == 0.0 by {
      assert ColumnRun(im, 0, x - 1, 0, y) == 1.0;
    }
  }

  /** One cell of make_integral_image: the reads of the three cells already
      written and the write of (x, y, z). */
  method IntegralCell(im: Image, integ: Image, x: int, y: int, z: int)
    requires im.Valid() && integ.Valid() && integ.data != im.data
    requires integ.w == im.w && integ.h == im.h && integ.c == im.c
    requires 0 <= x < im.w && 0 <= y < im.h && 0 <= z < im.c
    requires y > 0 ==> integ.View().GetPixel(x, y - 1, z) == IntegralAt(im.View(), z, x, y - 1)
    requires x > 0 ==> integ.View().GetPixel(x - 1, y, z) == IntegralAt(im.View(), z, x - 1, y)
    requires x > 0 && y > 0 ==>
      integ.View().GetPixel(x - 1, y - 1, z) == IntegralAt(im.View(), z, x - 1, y - 1)
    modifies integ.data
    ensures forall px, py, pz :: integ.View().Inside(px, py, pz) ==>
      integ.View().GetPixel(px, py, pz) ==
        if px == x && py == y && pz == z then IntegralAt(im.View(), z, x, y)
        else old(integ.View()).GetPixel(px, py, pz)
  {
    var above, left, corner := 0.0, 0.0, 0.0;
    if y != 0 {
      above := integ.View().GetPixel(x, y - 1, z);
    }
    if x != 0 {
      left := integ.View().GetPixel(x - 1, y, z);
    }
    if above != 0.0 && left != 0.0 {
      corner := integ.View().GetPixel(x - 1, y - 1, z);
    }
    integ.SetPixel(x, y, z, im.View().GetPixel(x, y, z) + above + left - corner);
  }

  /** One column of make_integral_image, top to bottom. */
  method IntegralColumn(im: Image, integ: Image, x: int, z: int)
    requires im.Valid() && integ.Valid() && integ.data != im.data
    requires integ.w == im.w && integ.h == im.h && integ.c == im.c
    requires 0 <= x < im.w && 0 <= z < im.c
    requires forall x', y' :: x' == x - 1 && 0 <= x' && 0 <= y' < im.h ==>
      integ.View().GetPixel(x', y', z) == IntegralAt(im.View(), z, x', y')
    modifies integ.data
    ensures forall px, py, pz :: integ.View().Inside(px, py, pz) ==>
      integ.View().GetPixel(px, py, pz) ==
        if px == x && pz == z then IntegralAt(im.View(), z, x, py)
        else old(integ.View()).GetPixel(px, py, pz)
  {
    for y := 0 to im.h
      invariant forall px, py, pz :: integ.View().Inside(px, py, pz) ==>
        integ.View().GetPixel(px, py, pz) ==
          if px == x && pz == z && py < y then IntegralAt(im.View(), z, x, py)
          else old(integ.View()).GetPixel(px, py, pz)
    {
      IntegralCell(im, integ, x, y, z);
    }
  }

  /** make_integral_image: channel by channel, column by column, each column
      top to bottom. */
  method MakeIntegralImage(im: Image) returns (integ: Image)
    requires im.Valid()
    ensures integ.Valid() && fresh(integ) && fresh(integ.data)
    ensures integ.View() == Integral(im.View())
  {
    integ := new Image(im.w, im.h, im.c);
    for z := 0 to im.c
      invariant forall x', y', z' :: integ.View().Inside(x', y', z') && z' < z ==>
        integ.View().GetPixel(x', y', z') == IntegralAt(im.View(), z', x', y')
    {
      for x := 0 to im.w
        invariant forall x', y', z' :: integ.View().Inside(x', y', z') && (z' < z || (z' == z && x' < x)) ==>
          integ.View().GetPixel(x', y', z') == IntegralAt(im.View(), z', x', y')
      {
        IntegralColumn(im, integ, x, z);
      }
    }
    ExtEq(integ.View(), Integral(im.View()));
  }

  // ---------------------------------------------------------------------
  // box_filter_image

  /** What box_filter_image takes off s for position i on an axis of length
      n with radius r, as written: r - i before the radius, i - n + r past
      n - r, and 0 in between. */
  function BorderOffset(i: int, r: int, n: int): int
  {
    if i < r then r - i else if i > n - r then i - n + r else 0
  }

  /** Each axis factor s - offset lies between 1 and s. */
  lemma BorderFactorBounds(i: int, s: int, n: int)
    requires s >= 1 && 0 <= i < n
    ensures 1 <= s - BorderOffset(i, s / 2, n) <= s
  {
  }

  /** The divisor box_filter_image uses at (i, j) of a w-by-h image; it is
      never zero, so the division is always defined. */
  function BoxDivisor(s: int, i: int, j: int, w: int, h: int): (d: int)
    requires s >= 1 && 0 <= i < w && 0 <= j < h
    ensures d >= 1
  {
    var a, b := s - BorderOffset(i, s / 2, w), s - BorderOffset(j, s / 2, h);
    BorderFactorBounds(i, s, w);
    BorderFactorBounds(j, s, h);
    MulMono(1, a, b);
    a * b
  }

  /** The four guarded reads of the integral image T at (i, j, k), as
      box_filter_image combines them: the corner beyond both low edges,
      minus the cells beyond the top and the left edge, plus the far
      corner. Reads past the far edges are clamped by get_pixel. */
  function CornerSum(T: Img, r: int, i: int, j: int, k: int): real
    requires T.Readable() && r >= 0
  {
    var a := if i > r && j > r then T.GetPixel(i - r - 1, j - r - 1, k) else 0.0;
    var b := if j > r then T.GetPixel(i + r, j - r - 1, k) else 0.0;
    var c := if i > r then T.GetPixel(i - r - 1, j + r, k) else 0.0;
    a - b - c + T.GetPixel(i + r, j + r, k)
  }

  /** The value box_filter_image writes at (i, j, k). */
  function BoxValue(T: Img, s: int, i: int, j: int, k: int): real
    requires T.Readable() && s >= 1 && 0 <= i < T.w && 0 <= j < T.h
  {
    CornerSum(T, s / 2, i, j, k) / BoxDivisor(s, i, j, T.w, T.h) as real
  }

  /** The box filter of window size s computed from the integral image T. */
  function BoxFromTable(T: Img, s: int): (r: Img)
    requires T.Valid() && s >= 1
    ensures r.Valid() && r.w == T.w && r.h == T.h && r.c == T.c
  {
    Tabulate(T.w, T.h, T.c, (i, j, k) requires T.Readable() && 0 <= i < T.w && 0 <= j < T.h =>
      BoxValue(T, s, i, j, k))
  }

  /** The image box_filter_image returns: the same shape as im. */
  function BoxFiltered(im: Img, s: int): (r: Img)
    requires im.Valid() && s >= 1
    ensures r.Valid() && r.w == im.w && r.h == im.h && r.c == im.c
  {
    BoxFromTable(Integral(im), s)
  }

  /** The four guarded reads of one pixel of box_filter_image. */
  method ReadCorners(T: Img, radius: int, i: int, j: int, k: int) returns (val: real)
    requires T.Readable() && radius >= 0
    ensures val == CornerSum(T, radius, i, j, k)
  {
    val := 0.0;
    if i > radius && j > radius {
      val := val + T.GetPixel(i - radius - 1, j - radius - 1, k);
    }
    if j > radius {
      val := val - T.GetPixel(i + radius, j - radius - 1, k);
    }
    if i > radius {
      val := val - T.GetPixel(i - radius - 1, j + radius, k);
    }
    val := val + T.GetPixel(i + radius, j + radius, k);
  }

  /** The factor box_filter_image divides by along one axis of length n. */
  method AxisFactor(i: int, s: int, n: int) returns (f: int)
    requires s >= 1
    ensures f == s - BorderOffset(i, s / 2, n)
  {
    var radius := s / 2;
    var off := 0;
    if i < radius {
      off := radius - i;
    } else if i > n - radius {
      off := i - n + radius;
    }
    f := s - off;
  }

  /** A pixel of the box-filtered image is the value computed from the
      integral image at that position. */
  lemma BoxFilteredAt(im: Img, s: int, x: int, y: int, z: int)
    requires im.Valid() && s >= 1 && im.Inside(x, y, z)
    ensures BoxFiltered(im, s).GetPixel(x, y, z) == BoxValue(Integral(im), s, x, y, z)
  {
  }

  /** One pixel of box_filter_image. */
  method BoxCell(integ: Image, S: Image, s: int, i: int, j: int, k: int)
    requires integ.Valid() && S.Valid() && S.data != integ.data
    requires S.w == integ.w && S.h == integ.h && S.c == integ.c
    requires s >= 1 && 0 <= i < integ.w && 0 <= j < integ.h && 0 <= k < integ.c
    modifies S.data
    ensures forall px, py, pz :: S.View().Inside(px, py, pz) ==>
      S.View().GetPixel(px, py, pz) ==
        if px == i && py == j && pz == k then BoxValue(integ.View(), s, i, j, k)
        else old(S.View()).GetPixel(px, py, pz)
  {
    var val := ReadCorners(integ.View(), s / 2, i, j, k);
    var a := AxisFactor(i, s, integ.w);
    var b := AxisFactor(j, s, integ.h);
    assert a * b == BoxDivisor(s, i, j, integ.w, integ.h);
    val := val / (a * b) as real;
    S.SetPixel(i, j, k, val);
  }

  /** One row of box_filter_image. */
  method BoxRow(integ: Image, S: Image, s: int, j: int, k: int)
    requires integ.Valid() && S.Valid() && S.data != integ.data
    requires S.w == integ.w && S.h == integ.h && S.c == integ.c
    requires s >= 1 && 0 <= j < integ.h && 0 <= k < integ.c
    modifies S.data
    ensures forall px, py, pz :: S.View().Inside(px, py, pz) ==>
      S.View().GetPixel(px, py, pz) ==
        if py == j && pz == k then BoxValue(integ.View(), s, px, j, k)
        else old(S.View()).GetPixel(px, py, pz)
  {
    for i := 0 to integ.w
      invariant forall px, py, pz :: S.View().Inside(px, py, pz) ==>
        S.View().GetPixel(px, py, pz) ==
          if py == j && pz == k && px < i then BoxValue(integ.View(), s, px, j, k)
          else old(S.View()).GetPixel(px, py, pz)
    {
      BoxCell(integ, S, s, i, j, k);
    }
  }

  /** One channel of box_filter_image. */
  method BoxChannel(integ: Image, S: Image, s: int, k: int)
    requires integ.Valid() && S.Valid() && S.data != integ.data
    requires S.w == integ.w && S.h == integ.h && S.c == integ.c
    requires s >= 1 && 0 <= k < integ.c
    modifies S.data
    ensures forall px, py, pz :: S.View().Inside(px, py, pz) ==>
      S.View().GetPixel(px, py, pz) ==
        if pz == k then BoxValue(integ.View(), s, px, py, k)
        else old(S.View()).GetPixel(px, py, pz)
  {
    for j := 0 to integ.h
      invariant forall px, py, pz :: S.View().Inside(px, py, pz) ==>
        S.View().GetPixel(px, py, pz) ==
          if pz == k && py < j then BoxValue(integ.View(), s, px, py, k)
          else old(S.View()).GetPixel(px, py, pz)
    {
      BoxRow(integ, S, s, j, k);
    }
  }

  /** box_filter_image: the integral image, then every output pixel from
      four of its cells. */
  method BoxFilterImage(im: Image, s: int) returns (S: Image)
    requires im.Valid() && s >= 1
    ensures S.Valid() && fresh(S) && fresh(S.data)
    ensures S.View() == BoxFiltered(im.View(), s)
  {
    var integ := MakeIntegralImage(im);
    S := new Image(im.w, im.h, im.c);
    ghost var T := integ.View();
    for k := 0 to im.c
      invariant integ.View() == T
      invariant forall x', y', z' :: S.View().Inside(x', y', z') && z' < k ==>
        S.View().GetPixel(x', y', z') == BoxValue(T, s, x', y', z')
    {
      BoxChannel(integ, S, s, k);
    }
    forall x, y, z | S.View().Inside(x, y, z)
      ensures S.View().GetPixel(x, y, z) == BoxFiltered(im.View(), s).GetPixel(x, y, z)
    {
      BoxFilteredAt(im.View(), s, x, y, z);
    }
    ExtEq(S.View(), BoxFiltered(im.View(), s));
  }

  /** T is a summed-area table of im: the same shape, and each cell the sum
      of the pixels of its channel above and to the left of it, itself
      included. */
  ghost predicate IsSummedArea(T: Img, im: Img)
    requires T.Readable() && im.Readable()
  {
    T.w == im.w && T.h == im.h && T.c == im.c &&
    forall x, y, z :: im.Inside(x, y, z) ==> T.GetPixel(x, y, z) == WindowSum(im, z, 0, x + 1, 0, y + 1)
  }

  /** For a nonnegative image make_integral_image builds a summed-area table. */
  lemma IntegralIsSummedArea(im: Img)
    requires im.Readable() && Nonnegative(im)
    ensures Integral(im).Readable() && IsSummedArea(Integral(im), im)
  {
    forall x, y, z | im.Inside(x, y, z)
      ensures Integral(im).GetPixel(x, y, z) == WindowSum(im, z, 0, x + 1, 0, y + 1)
    {
      IntegralIsWindowSum(im, z, x, y);
    }
  }

  /** The corrected recurrence builds a summed-area table for every image. */
  lemma FixedIntegralIsSummedArea(im: Img)
    requires im.Readable()
    ensures FixedIntegral(im).Readable() && IsSummedArea(FixedIntegral(im), im)
  {
    forall x, y, z | im.Inside(x, y, z)
      ensures FixedIntegral(im).GetPixel(x, y, z) == WindowSum(im, z, 0, x + 1, 0, y + 1)
    {
      FixedIntegralIsWindowSum(im, z, x, y);
    }
  }

  /** The first position of the window of radius r around i, clipped at 0. */
  function WindowLow(i: int, r: int): int
  {
    if i - r > 0 then i - r else 0
  }

  /** One past the last position of that window, clipped at n. */
  function WindowHigh(i: int, r: int, n: int): int
  {
    if i + r < n then i + r + 1 else n
  }

  /** The sum of channel k of im over the window of radius r around
      (i, j), clipped to the image. */
  function ClippedSum(im: Img, r: int, i: int, j: int, k: int): real
    requires im.Readable() && r >= 0 && 0 <= i < im.w && 0 <= j < im.h
  {
    WindowSum(im, k, WindowLow(i, r), WindowHigh(i, r, im.w), WindowLow(j, r), WindowHigh(j, r, im.h))
  }

  /** A read of a summed-area table at (x, y) with x, y >= 0, clamped by
      get_pixel past the far edges, is the origin window up to the cell
      read. */
  lemma TableRead(T: Img, im: Img, x: int, y: int, k: int)
    requires T.Readable() && im.Readable() && IsSummedArea(T, im)
    requires 0 <= x && 0 <= y && 0 <= k < im.c
    ensures T.GetPixel(x, y, k) ==
      WindowSum(im, k, 0, if x < im.w then x + 1 else im.w, 0, if y < im.h then y + 1 else im.h)
  {
    GetPixelClamped(T, x, y, k);
  }

  /** The far-corner read at (i + r, j + r) is the origin window up to the
      far edges of the clipped window. */
  lemma FarCornerRead(T: Img, im: Img, r: int, i: int, j: int, k: int)
    requires T.Readable() && im.Readable() && IsSummedArea(T, im)
    requires r >= 0 && im.Inside(i, j, k)
    ensures T.GetPixel(i + r, j + r, k) == WindowSum(im, k, 0, WindowHigh(i, r, im.w), 0, WindowHigh(j, r, im.h))
  {
    TableRead(T, im, i + r, j + r, k);
  }

  /** The guarded read above the window is the origin window up to its top
      edge. */
  lemma TopCornerRead(T: Img, im: Img, r: int, i: int, j: int, k: int)
    requires T.Readable() && im.Readable() && IsSummedArea(T, im)
    requires r >= 0 && im.Inside(i, j, k)
    ensures (if j > r then T.GetPixel(i + r, j - r - 1, k) else 0.0) ==
      WindowSum(im, k, 0, WindowHigh(i, r, im.w), 0, WindowLow(j, r))
  {
    if j > r {
      TableRead(T, im, i + r, j - r - 1, k);
    } else {
      WindowNoRows(im, k, 0, WindowHigh(i, r, im.w), 0);
    }
  }

  /** The guarded read left of the window is the origin window up to its
      left edge. */
  lemma LeftCornerRead(T: Img, im: Img, r: int, i: int, j: int, k: int)
    requires T.Readable() && im.Readable() && IsSummedArea(T, im)
    requires r >= 0 && im.Inside(i, j, k)
    ensures (if i > r then T.GetPixel(i - r - 1, j + r, k) else 0.0) ==
      WindowSum(im, k, 0, WindowLow(i, r), 0, WindowHigh(j, r, im.h))
  {
    if i > r {
      TableRead(T, im, i - r - 1, j + r, k);
    }
  }

  /** The guarded read beyond both low edges is the origin window up to the
      near corner. */
  lemma NearCornerRead(T: Img, im: Img, r: int, i: int, j: int, k: int)
    requires T.Readable() && im.Readable() && IsSummedArea(T, im)
    requires r >= 0 && im.Inside(i, j, k)
    ensures (if i > r && j > r then T.GetPixel(i - r - 1, j - r - 1, k) else 0.0) ==
      WindowSum(im, k, 0, WindowLow(i, r), 0, WindowLow(j, r))
  {
    if i > r && j > r {
      TableRead(T, im, i - r - 1, j - r - 1, k);
    } else if i > r {
      WindowNoRows(im, k, 0, WindowLow(i, r), 0);
    }
  }

  /** Whatever the radius r, the four guarded reads at (i, j) add up to the
      sum of im over the window of radius r around (i, j), clipped to the
      image. */
  lemma CornerSumIsWindow(T: Img, im: Img, r: int, i: int, j: int, k: int)
    requires T.Readable() && im.Readable() && IsSummedArea(T, im)
    requires r >= 0 && im.Inside(i, j, k)
    ensures CornerSum(T, r, i, j, k) == ClippedSum(im, r, i, j, k)
  {
    FarCornerRead(T, im, r, i, j, k);
    TopCornerRead(T, im, r, i, j, k);
    LeftCornerRead(T, im, r, i, j, k);
    NearCornerRead(T, im, r, i, j, k);
    CombineCorners(T, im, r, i, j, k);
  }

  /** The inclusion-exclusion step of CornerSumIsWindow, once each read is
      known to be its origin window. */
  lemma CombineCorners(T: Img, im: Img, r: int, i: int, j: int, k: int)
    requires T.Readable() && im.Readable() && r >= 0 && im.Inside(i, j, k)
    requires T.GetPixel(i + r, j + r, k) ==
      WindowSum(im, k, 0, WindowHigh(i, r, im.w), 0, WindowHigh(j, r, im.h))
    requires (if j > r then T.GetPixel(i + r, j - r - 1, k) else 0.0) ==
      WindowSum(im, k, 0, WindowHigh(i, r, im.w), 0, WindowLow(j, r))
    requires (if i > r then T.GetPixel(i - r - 1, j + r, k) else 0.0) ==
      WindowSum(im, k, 0, WindowLow(i, r), 0, WindowHigh(j, r, im.h))
    requires (if i > r && j > r then T.GetPixel(i - r - 1, j - r - 1, k) else 0.0) ==
      WindowSum(im, k, 0, WindowLow(i, r), 0, WindowLow(j, r))
    ensures CornerSum(T, r, i, j, k) == ClippedSum(im, r, i, j, k)
  {
    WindowFromCorners(im, k, WindowLow(i, r), WindowHigh(i, r, im.w), WindowLow(j, r), WindowHigh(j, r, im.h));
  }

  /** For odd s, at a pixel whose whole window lies inside the image,
      box_filter_image returns the window's sum divided by s * s: the mean
      over the s-by-s window. */
  lemma BoxInterior(T: Img, im: Img, s: int, i: int, j: int, k: int)
    requires T.Readable() && im.Readable() && IsSummedArea(T, im)
    requires s >= 1 && s % 2 == 1 && 0 <= k < im.c
    requires s / 2 <= i < im.w - s / 2 && s / 2 <= j < im.h - s / 2
    ensures BoxValue(T, s, i, j, k) ==
      WindowSum(im, k, i - s / 2, i + s / 2 + 1, j - s / 2, j + s / 2 + 1) / (s * s) as real
  {
    CornerSumIsWindow(T, im, s / 2, i, j, k);
    assert BorderOffset(i, s / 2, im.w) == 0 && BorderOffset(j, s / 2, im.h) == 0;
  }

  /** On the left and top border, for odd s, the factor s - (r - i) is the
      number of positions the clipped window covers, as long as the window
      does not also reach the far edge. */
  lemma LeadingFactorCounts(i: int, s: int, n: int)
    requires s >= 1 && s % 2 == 1 && 0 <= i < s / 2 && i + s / 2 < n
    ensures s - BorderOffset(i, s / 2, n) == WindowHigh(i, s / 2, n) - WindowLow(i, s / 2)
  {
  }

  /** Wherever the window reaches past the right or bottom edge, for odd s,
      the factor is one more than the number of positions the clipped window
      covers: at i = n - r one position is lost but the offset is 0, and
      beyond it the offset i - n + r falls one short of the positions lost. */
  lemma TrailingFactorOverCounts(i: int, s: int, n: int)
    requires s >= 1 && s % 2 == 1 && s / 2 <= i < n && i + s / 2 >= n
    ensures s - BorderOffset(i, s / 2, n) == WindowHigh(i, s / 2, n) - WindowLow(i, s / 2) + 1
  {
  }

  /** A concrete instance: with s = 3 on a 4-pixel axis, the last position
      sums 2 columns but divides by the factor 3. */
  lemma TrailingFactorExample(i: int, s: int, n: int)
    requires i == 3 && s == 3 && n == 4
    ensures WindowHigh(i, s / 2, n) - WindowLow(i, s / 2) == 2
    ensures s - BorderOffset(i, s / 2, n) == 3
  {
  }

  /** For even s the four reads span s + 1 positions on each axis, but the
      divisor is s * s: with s = 2 at the centre of a 5-by-5 image, 9 pixels
      are summed and the sum is divided by 4. */
  lemma EvenInteriorExample(s: int, i: int, j: int, w: int, h: int)
    requires s == 2 && i == 2 && j == 2 && w == 5 && h == 5
    ensures WindowHigh(i, s / 2, w) - WindowLow(i, s / 2) == 3
    ensures CountedDivisor(s, i, j, w, h) == 9
    ensures BoxDivisor(s, i, j, w, h) == 4
  {
  }

  /** When the window reaches past both ends of a short axis, the else-if
      takes off only the leading offset: with s = 5 on a 2-pixel axis at
      i = 0, 2 positions are summed but the factor is 3. */
  lemma NarrowAxisExample(i: int, s: int, n: int)
    requires i == 0 && s == 5 && n == 2
    ensures WindowHigh(i, s / 2, n) - WindowLow(i, s / 2) == 2
    ensures s - BorderOffset(i, s / 2, n) == 3
  {
  }

  /** The divisor the comment on box_filter_image intends: the number of
      pixels actually summed. */
  function CountedDivisor(s: int, i: int, j: int, w: int, h: int): (d: int)
    requires s >= 1 && 0 <= i < w && 0 <= j < h
    ensures d >= 1
  {
    var a := WindowHigh(i, s / 2, w) - WindowLow(i, s / 2);
    var b := WindowHigh(j, s / 2, h) - WindowLow(j, s / 2);
    MulMono(1, a, b);
    a * b
  }

  /** The box filter value with the counted divisor. */
  function FixedBoxValue(T: Img, s: int, i: int, j: int, k: int): real
    requires T.Readable() && s >= 1 && 0 <= i < T.w && 0 <= j < T.h
  {
    CornerSum(T, s / 2, i, j, k) / CountedDivisor(s, i, j, T.w, T.h) as real
  }

  /** With the counted divisor every output pixel, on the border too, is
      the mean of im over the clipped window around it. */
  lemma FixedBoxIsMean(T: Img, im: Img, s: int, i: int, j: int, k: int)
    requires T.Readable() && im.Readable() && IsSummedArea(T, im)
    requires s >= 1 && im.Inside(i, j, k)
    ensures FixedBoxValue(T, s, i, j, k) == ClippedSum(im, s / 2, i, j, k) / CountedDivisor(s, i, j, im.w, im.h) as real
  {
    CornerSumIsWindow(T, im, s / 2, i, j, k);
  }

  /** Channel k of im holds 0 everywhere. */
  ghost predicate ChannelZero(im: Img, k: int)
    requires im.Valid()
  {
    forall x, y :: im.Inside(x, y, k) ==> im.GetPixel(x, y, k) == 0.0
  }

  /** A channel of zeros has an integral of zeros. */
  lemma {:induction false} IntegralOfZeroChannel(im: Img, k: int, x: int, y: int)
    requires im.Readable() && 0 <= k < im.c && ChannelZero(im, k)
    requires 0 <= x < im.w && 0 <= y < im.h
    ensures IntegralAt(im, k, x, y) == 0.0
    decreases x + y
  {
    if y > 0 {
      IntegralOfZeroChannel(im, k, x, y - 1);
    }
    if x > 0 {
      IntegralOfZeroChannel(im, k, x - 1, y);
    }
  }

  /** The four reads of an all-zero channel of a table sum to 0. */
  lemma CornerSumOfZeroChannel(T: Img, r: int, i: int, j: int, k: int)
    requires T.Readable() && r >= 0 && 0 <= k < T.c && ChannelZero(T, k)
    ensures CornerSum(T, r, i, j, k) == 0.0
  {
    GetPixelClamped(T, i + r, j + r, k);
    GetPixelClamped(T, i + r, j - r - 1, k);
    GetPixelClamped(T, i - r - 1, j + r, k);
    GetPixelClamped(T, i - r - 1, j - r - 1, k);
  }

  /** A channel of zeros stays a channel of zeros through box_filter_image. */
  lemma BoxOfZeroChannel(im: Img, s: int, k: int)
    requires im.Valid() && s >= 1 && 0 <= k < im.c && ChannelZero(im, k)
    ensures ChannelZero(BoxFiltered(im, s), k)
  {
    var T := Integral(im);
    forall x, y | T.Inside(x, y, k)
      ensures T.GetPixel(x, y, k) == 0.0
    {
      IntegralOfZeroChannel(im, k, x, y);
    }
    forall i, j | BoxFiltered(im, s).Inside(i, j, k)
      ensures BoxFiltered(im, s).GetPixel(i, j, k) == 0.0
    {
      BoxFilteredAt(im, s, i, j, k);
      CornerSumOfZeroChannel(T, s / 2, i, j, k);
    }
  }

  // ---------------------------------------------------------------------
  // time_structure_matrix

  /** The frame time_structure_matrix differentiates: the grayscale version
      of a three-channel image, any other image as it is. */
  function Luminance(im: Img): (r: Img)
    requires im.Valid()
    ensures r.Valid() && r.w == im.w && r.h == im.h && r.c == (if im.c == 3 then 1 else im.c)
  {
    if im.c == 3 then Process.Grayscale(im) else im
  }

  /** The temporal derivative: channel 0 of the current frame minus channel 0
      of the previous one. */
  function TimeDerivative(g: Img, p: Img): (r: Img)
    requires g.Valid() && p.Valid() && g.c >= 1 && p.c >= 1 && p.w == g.w && p.h == g.h
    ensures r.Valid() && r.w == g.w && r.h == g.h && r.c == 1
  {
    Tabulate(g.w, g.h, 1, (x, y, z) requires g.Valid() && p.Valid() && p.w == g.w && p.h == g.h && 0 <= x < g.w && 0 <= y < g.h =>
      g.GetPixel(x, y, 0) - p.GetPixel(x, y, 0))
  }

  /** Channel z of the five per-pixel products time_structure_matrix
      stores, in channel order: Ix * Ix, Iy * Iy, Ix * Iy, Ix * It and
      Iy * It. */
  function TimeProduct(vx: real, vy: real, vt: real, z: int): real
  {
    if z == 0 then vx * vx else if z == 1 then vy * vy else if z == 2 then vx * vy
    else if z == 3 then vx * vt else vy * vt
  }

  /** The five products at every pixel. */
  function TimeProducts(ix: Img, iy: Img, it: Img): (r: Img)
    requires ix.Valid() && iy.Valid() && it.Valid() && ix.c == 1 && iy.c == 1 && it.c == 1
    requires iy.w == ix.w && iy.h == ix.h && it.w == ix.w && it.h == ix.h
    ensures r.Valid() && r.w == ix.w && r.h == ix.h && r.c == 5
  {
    Tabulate(ix.w, ix.h, 5, (x, y, z) requires ix.Valid() && iy.Valid() && it.Valid() && 0 <= x < ix.w && 0 <= y < ix.h =>
      TimeProduct(ix.GetPixel(x, y, 0), iy.GetPixel(x, y, 0), it.GetPixel(x, y, 0), z))
  }

  /** The image time_structure_matrix returns: the five products of the
      frame pair, box filtered with window size s. */
  function TimeStructure(im: Img, prev: Img, s: int): (r: Img)
    requires im.Valid() && prev.Valid() && prev.w == im.w && prev.h == im.h && prev.c == im.c
    requires im.c >= 1 && s >= 1
    ensures r.Valid() && r.w == im.w && r.h == im.h && r.c == 5
  {
    var g, p := Luminance(im), Luminance(prev);
    BoxFiltered(TimeProducts(Harris.GradientX(g), Harris.GradientY(g), TimeDerivative(g, p)), s)
  }

  /** A frame against itself has a zero temporal derivative. */
  lemma TimeDerivativeOfSameFrame(g: Img)
    requires g.Valid() && g.c >= 1
    ensures ChannelZero(TimeDerivative(g, g), 0)
  {
  }

  /** With a zero temporal derivative the two time channels of the products
      are zero. */
  lemma TimeChannelsOfStill(ix: Img, iy: Img, it: Img)
    requires ix.Valid() && iy.Valid() && it.Valid() && ix.c == 1 && iy.c == 1 && it.c == 1
    requires iy.w == ix.w && iy.h == ix.h && it.w == ix.w && it.h == ix.h
    requires ChannelZero(it, 0)
    ensures ChannelZero(TimeProducts(ix, iy, it), 3) && ChannelZero(TimeProducts(ix, iy, it), 4)
  {
    var P := TimeProducts(ix, iy, it);
    forall x, y | P.Inside(x, y, 3)
      ensures P.GetPixel(x, y, 3) == 0.0 && P.GetPixel(x, y, 4) == 0.0
    {
      assert it.GetPixel(x, y, 0) == 0.0;
      assert P.GetPixel(x, y, 3) == TimeProduct(ix.GetPixel(x, y, 0), iy.GetPixel(x, y, 0), 0.0, 3);
      assert P.GetPixel(x, y, 4) == TimeProduct(ix.GetPixel(x, y, 0), iy.GetPixel(x, y, 0), 0.0, 4);
    }
  }

  /** Two identical frames give no temporal terms: channels 3 and 4 of the
      time-structure matrix are zero everywhere, after the box filter too. */
  lemma StillFramesHaveNoTimeTerms(im: Img, s: int)
    requires im.Valid() && im.c >= 1 && s >= 1
    ensures ChannelZero(TimeStructure(im, im, s), 3) && ChannelZero(TimeStructure(im, im, s), 4)
  {
    var g := Luminance(im);
    var it := TimeDerivative(g, g);
    TimeDerivativeOfSameFrame(g);
    var P := TimeProducts(Harris.GradientX(g), Harris.GradientY(g), it);
    TimeChannelsOfStill(Harris.GradientX(g), Harris.GradientY(g), it);
    BoxOfZeroChannel(P, s, 3);
    BoxOfZeroChannel(P, s, 4);
  }

  /** The It loop of time_structure_matrix: over the first w * h values of
      the buffers, that is channel 0, the current frame minus the previous. */
  method FrameDifference(im: Image, prev: Image) returns (gt: Image)
    requires im.Valid() && prev.Valid() && prev.w == im.w && prev.h == im.h && prev.c == im.c && im.c >= 1
    ensures gt.Valid() && fresh(gt) && fresh(gt.data)
    ensures gt.View() == TimeDerivative(im.View(), prev.View())
  {
    gt := new Image(im.w, im.h, 1);
    MulIsProduct(im.w, im.h);
    SizeIsProduct(im.w, im.h, im.c);
    SizeIsProduct(im.w, im.h, 1);
    MulMono(1, im.c, im.w * im.h);
    for i := 0 to im.w * im.h
      invariant forall i' :: 0 <= i' < i ==> gt.data[i'] == im.data[i'] - prev.data[i']
    {
      gt.data[i] := im.data[i] - prev.data[i];
    }
    forall x, y, z | gt.View().Inside(x, y, z)
      ensures gt.View().GetPixel(x, y, z) == TimeDerivative(im.View(), prev.View()).GetPixel(x, y, z)
    {
      PlaneOffset(x, y, im.w, im.h);
      assert Index(x, y, 0, im.w, im.h) == x + Mul(y, im.w);
    }
    ExtEq(gt.View(), TimeDerivative(im.View(), prev.View()));
  }

  /** The first three writes of time_structure_matrix's product loop: the
      spatial products into channels 0, 1 and 2 at (x, y). */
  method StoreSpatialProducts(S: Image, x: int, y: int, vx: real, vy: real, vt: real)
    requires S.Valid()
    modifies S.data
    ensures forall px, py, z :: S.View().Inside(px, py, z) ==>
      S.View().GetPixel(px, py, z) ==
        if px == x && py == y && 0 <= z < 3 then TimeProduct(vx, vy, vt, z)
        else old(S.View()).GetPixel(px, py, z)
  {
    S.SetPixel(x, y, 0, vx * vx);
    S.SetPixel(x, y, 1, vy * vy);
    S.SetPixel(x, y, 2, vx * vy);
  }

  /** The last two writes: the temporal products into channels 3 and 4. */
  method StoreTemporalProducts(S: Image, x: int, y: int, vx: real, vy: real, vt: real)
    requires S.Valid()
    modifies S.data
    ensures forall px, py, z :: S.View().Inside(px, py, z) ==>
      S.View().GetPixel(px, py, z) ==
        if px == x && py == y && 3 <= z < 5 then TimeProduct(vx, vy, vt, z)
        else old(S.View()).GetPixel(px, py, z)
  {
    S.SetPixel(x, y, 3, vx * vt);
    S.SetPixel(x, y, 4, vy * vt);
  }

  /** The body of time_structure_matrix's product loop at (x, y). */
  method StoreTimeProducts(ix: Image, iy: Image, it: Image, S: Image, x: int, y: int)
    requires ix.Valid() && iy.Valid() && it.Valid() && S.Valid()
    requires ix.View().Readable() && iy.View().Readable() && it.View().Readable()
    requires S.data != ix.data && S.data != iy.data && S.data != it.data
    modifies S.data
    ensures forall px, py, z :: S.View().Inside(px, py, z) ==>
      S.View().GetPixel(px, py, z) ==
        if px == x && py == y && 0 <= z < 5 then
          TimeProduct(ix.View().GetPixel(x, y, 0), iy.View().GetPixel(x, y, 0), it.View().GetPixel(x, y, 0), z)
        else old(S.View()).GetPixel(px, py, z)
  {
    var vx := ix.View().GetPixel(x, y, 0);
    var vy := iy.View().GetPixel(x, y, 0);
    var vt := it.View().GetPixel(x, y, 0);
    StoreSpatialProducts(S, x, y, vx, vy, vt);
    StoreTemporalProducts(S, x, y, vx, vy, vt);
  }

  /** The product loops of time_structure_matrix. */
  method FillTimeProducts(ix: Image, iy: Image, it: Image) returns (S: Image)
    requires ix.Valid() && iy.Valid() && it.Valid() && ix.c == 1 && iy.c == 1 && it.c == 1
    requires iy.w == ix.w && iy.h == ix.h && it.w == ix.w && it.h == ix.h
    ensures S.Valid() && fresh(S) && fresh(S.data)
    ensures S.View() == TimeProducts(ix.View(), iy.View(), it.View())
  {
    S := new Image(ix.w, ix.h, 5);
    ghost var spec := TimeProducts(ix.View(), iy.View(), it.View());
    for y := 0 to ix.h
      invariant forall x', y', z' :: S.View().Inside(x', y', z') && y' < y ==>
        S.View().GetPixel(x', y', z') == spec.GetPixel(x', y', z')
    {
      for x := 0 to ix.w
        invariant forall x', y', z' :: S.View().Inside(x', y', z') && (y' < y || (y' == y && x' < x)) ==>
          S.View().GetPixel(x', y', z') == spec.GetPixel(x', y', z')
      {
        StoreTimeProducts(ix, iy, it, S, x, y);
      }
    }
    ExtEq(S.View(), spec);
  }

  /** time_structure_matrix: grayscale conversion of a three-channel pair,
      the x and y gradients of the current frame, the temporal difference,
      the five products, and the box filter of size s. */
  method TimeStructureMatrix(im: Image, prev: Image, s: int) returns (S: Image)
    requires im.Valid() && prev.Valid() && prev.w == im.w && prev.h == im.h && prev.c == im.c
    requires im.c >= 1 && s >= 1
    ensures S.Valid() && fresh(S) && fresh(S.data)
    ensures S.View() == TimeStructure(im.View(), prev.View(), s)
  {
    var g, p := im, prev;
    if im.c == 3 {
      g := Process.RgbToGrayscale(im);
      p := Process.RgbToGrayscale(prev);
    }
    assert g.View() == Luminance(im.View()) && p.View() == Luminance(prev.View());
    var gxFilter := MakeGxFilter();
    var ix := ConvolveImage(g, gxFilter, 0);
    var gyFilter := MakeGyFilter();
    var iy := ConvolveImage(g, gyFilter, 0);
    var it := FrameDifference(g, p);
    var products := FillTimeProducts(ix, iy, it);
    S := BoxFilterImage(products, s);
  }

  // ---------------------------------------------------------------------
  // velocity_image

  /** A 2x2 matrix, row by row: [[a, b], [c, d]]. */
  datatype Mat2 = Mat2(a: real, b: real, c: real, d: real)

  /** A 2-vector. */
  datatype Vec2 = Vec2(x: real, y: real)

  /** Matrix times vector, as matrix_mult_matrix computes it for a 2x2 by
      2x1 product. */
  function Apply(m: Mat2, v: Vec2): (r: Vec2)
    ensures r.x == m.a * v.x + m.b * v.y && r.y == m.c * v.x + m.d * v.y
  {
    Vec2(m.a * v.x + m.b * v.y, m.c * v.x + m.d * v.y)
  }

  /** Matrix times matrix. */
  function Compose(m: Mat2, n: Mat2): Mat2
  {
    Mat2(m.a * n.a + m.b * n.c, m.a * n.b + m.b * n.d, m.c * n.a + m.d * n.c, m.c * n.b + m.d * n.d)
  }

  /** The identity matrix. */
  const Identity: Mat2 := Mat2(1.0, 0.0, 0.0, 1.0)

  /** The structure matrix M at (i, j) of a time-structure image:
      [[Ixx, Ixy], [Ixy, Iyy]]. */
  function StructureAt(S: Img, i: int, j: int): (m: Mat2)
    requires S.Readable() && S.c >= 5
    ensures m.b == m.c
  {
    Mat2(S.GetPixel(i, j, 0), S.GetPixel(i, j, 2), S.GetPixel(i, j, 2), S.GetPixel(i, j, 1))
  }

  /** The right-hand side T at (i, j): (-Ixt, -Iyt). */
  function TimeTermsAt(S: Img, i: int, j: int): Vec2
    requires S.Readable() && S.c >= 5
  {
    Vec2(-S.GetPixel(i, j, 3), -S.GetPixel(i, j, 4))
  }

  /** The flow vector velocity_image computes at (i, j): invert(M) * T. The
      inversion routine is a parameter. */
  function FlowAt(S: Img, i: int, j: int, invert: Mat2 -> Mat2): Vec2
    requires S.Readable() && S.c >= 5
  {
    Apply(invert(StructureAt(S, i, j)), TimeTermsAt(S, i, j))
  }

  /** Where an inverse is exact, the flow vector solves M * v = T: the
      optical-flow equations at (i, j). */
  lemma FlowSolvesEquations(S: Img, i: int, j: int, invert: Mat2 -> Mat2)
    requires S.Readable() && S.c >= 5
    requires Compose(StructureAt(S, i, j), invert(StructureAt(S, i, j))) == Identity
    ensures Apply(StructureAt(S, i, j), FlowAt(S, i, j, invert)) == TimeTermsAt(S, i, j)
  {
    var m, n, t := StructureAt(S, i, j), invert(StructureAt(S, i, j)), TimeTermsAt(S, i, j);
    ApplyCompose(m, n, t);
  }

  /** Applying a product is applying its factors in turn. */
  lemma ApplyCompose(m: Mat2, n: Mat2, v: Vec2)
    ensures Apply(Compose(m, n), v) == Apply(m, Apply(n, v))
  {
    var a := m.a * (n.a * v.x + n.b * v.y) + m.b * (n.c * v.x + n.d * v.y);
    assert a == (m.a * n.a + m.b * n.c) * v.x + (m.a * n.b + m.b * n.d) * v.y;
    var b := m.c * (n.a * v.x + n.b * v.y) + m.d * (n.c * v.x + n.d * v.y);
    assert b == (m.c * n.a + m.d * n.c) * v.x + (m.c * n.b + m.d * n.d) * v.y;
  }

  /** The determinant. */
  function Det(m: Mat2): real
  {
    m.a * m.d - m.b * m.c
  }

  /** The adjugate over the determinant, with the singular case left as the
      zero matrix. */
  function CramerInverse(m: Mat2): Mat2
  {
    var det := Det(m);
    if det == 0.0 then Mat2(0.0, 0.0, 0.0, 0.0)
    else Mat2(m.d / det, -m.b / det, -m.c / det, m.a / det)
  }

  /** For a nonsingular matrix the adjugate formula is a right inverse. */
  lemma CramerIsInverse(m: Mat2)
    requires Det(m) != 0.0
    ensures Compose(m, CramerInverse(m)) == Identity
  {
    var det := Det(m);
    var n := CramerInverse(m);
    assert m.a * n.a + m.b * n.c == (m.a * m.d - m.b * m.c) / det;
    assert m.a * n.b + m.b * n.d == (-m.a * m.b + m.b * m.a) / det;
    assert m.c * n.a + m.d * n.c == (m.c * m.d - m.d * m.c) / det;
    assert m.c * n.b + m.d * n.d == (-m.c * m.b + m.d * m.a) / det;
    assert (m.a * m.d - m.b * m.c) / det == 1.0 && (-m.c * m.b + m.d * m.a) / det == 1.0;
    assert Compose(m, n) == Mat2(1.0, 0.0, 0.0, 1.0);
  }

  /** The first sampled position on an axis: (stride - 1) / 2. */
  function SampleStart(stride: int): int
  {
    (stride - 1) / 2
  }

  /** The position sampled for output coordinate k. */
  function SampleAt(k: int, stride: int): int
  {
    SampleStart(stride) + Mul(k, stride)
  }

  /** Every output coordinate below n / stride samples a position inside an
      axis of length n, and every sampled position divides back to its
      output coordinate. */
  lemma SampleInside(k: int, stride: int, n: int)
    requires stride >= 1 && 0 <= k && n >= 0
    ensures k < n / stride ==> SampleAt(k, stride) < n
    ensures SampleAt(k, stride) >= 0 && SampleAt(k, stride) / stride == k
  {
    var o := SampleStart(stride);
    MulIsProduct(k, stride);
    DivModUnique(SampleAt(k, stride), stride, k, o);
    DivModUnique(n, stride, n / stride, n % stride);
    if k < n / stride {
      MulMono(k + 1, n / stride, stride);
    }
  }

  /** The sampling can reach past the output: on an axis of 5 with stride 2
      the position 4 is sampled, but its output coordinate 2 lies outside
      the 2 columns of the result, so set_pixel drops that write. */
  lemma SampleBeyondOutput(k: int, stride: int, n: int)
    requires k == 2 && stride == 2 && n == 5
    ensures SampleAt(k, stride) < n && k >= n / stride
  {
    MulIsProduct(k, stride);
  }

  /** The flow at output pixel (x, y): the flow at its sampled position. */
  function SampledFlow(S: Img, stride: int, x: int, y: int, invert: Mat2 -> Mat2): Vec2
    requires S.Valid() && S.c >= 5 && stride >= 1
    requires 0 <= x < S.w / stride && 0 <= y < S.h / stride
  {
    SampleInside(x, stride, S.w);
    SampleInside(y, stride, S.h);
    FlowAt(S, SampleAt(x, stride), SampleAt(y, stride), invert)
  }

  /** The image velocity_image returns: S.w / stride by S.h / stride with
      three channels; channels 0 and 1 hold the flow at the sampled
      positions, and channel 2, never written, keeps what the fresh buffer
      blank held. */
  function Velocity(S: Img, stride: int, invert: Mat2 -> Mat2, blank: Img): (r: Img)
    requires S.Valid() && S.c >= 5 && stride >= 1 && blank.Valid()
    requires blank.w == S.w / stride && blank.h == S.h / stride && blank.c == 3
    ensures r.Valid() && r.w == S.w / stride && r.h == S.h / stride && r.c == 3
  {
    Tabulate(S.w / stride, S.h / stride, 3, (x, y, z)
      requires S.Valid() && S.c >= 5 && stride >= 1 && blank.Valid() && blank.w == S.w / stride
      requires blank.h == S.h / stride && blank.c == 3 && 0 <= x < S.w / stride && 0 <= y < S.h / stride
      =>
      if z == 0 then SampledFlow(S, stride, x, y, invert).x
      else if z == 1 then SampledFlow(S, stride, x, y, invert).y
      else blank.GetPixel(x, y, z))
  }

  /** Where the inversion is exact at every sampled position, every output
      vector solves the optical-flow equations there. */
  lemma VelocitySolvesEquations(S: Img, stride: int, invert: Mat2 -> Mat2, blank: Img, x: int, y: int)
    requires S.Valid() && S.c >= 5 && stride >= 1 && blank.Valid()
    requires blank.w == S.w / stride && blank.h == S.h / stride && blank.c == 3
    requires 0 <= x < S.w / stride && 0 <= y < S.h / stride && S.Readable()
    requires Compose(StructureAt(S, SampleAt(x, stride), SampleAt(y, stride)),
                     invert(StructureAt(S, SampleAt(x, stride), SampleAt(y, stride)))) == Identity
    ensures var v := Vec2(Velocity(S, stride, invert, blank).GetPixel(x, y, 0),
                          Velocity(S, stride, invert, blank).GetPixel(x, y, 1));
            Apply(StructureAt(S, SampleAt(x, stride), SampleAt(y, stride)), v) ==
              TimeTermsAt(S, SampleAt(x, stride), SampleAt(y, stride))
  {
    var f := SampledFlow(S, stride, x, y, invert);
    assert Velocity(S, stride, invert, blank).GetPixel(x, y, 0) == f.x;
    assert Velocity(S, stride, invert, blank).GetPixel(x, y, 1) == f.y;
    FlowSolvesEquations(S, SampleAt(x, stride), SampleAt(y, stride), invert);
  }

  /** One sample of velocity_image at (i, j): the five reads of S's buffer,
      the solve, and the two writes at (i / stride, j / stride), which
      set_pixel drops when that lies outside v. */
  method VelocityCell(S: Image, v: Image, stride: int, invert: Mat2 -> Mat2, i: int, j: int)
    requires S.Valid() && v.Valid() && v.data != S.data && S.c >= 5 && stride >= 1
    requires 0 <= i < S.w && 0 <= j < S.h
    modifies v.data
    ensures S.View().Readable()
    ensures forall px, py, pz :: v.View().Inside(px, py, pz) ==>
      v.View().GetPixel(px, py, pz) ==
        if px == i / stride && py == j / stride && pz == 0 then FlowAt(S.View(), i, j, invert).x
        else if px == i / stride && py == j / stride && pz == 1 then FlowAt(S.View(), i, j, invert).y
        else old(v.View()).GetPixel(px, py, pz)
  {
    IndexInBuffer(i, j, 0, S.w, S.h, S.c);
    IndexInBuffer(i, j, 1, S.w, S.h, S.c);
    IndexInBuffer(i, j, 2, S.w, S.h, S.c);
    IndexInBuffer(i, j, 3, S.w, S.h, S.c);
    IndexInBuffer(i, j, 4, S.w, S.h, S.c);
    var ixx := S.data[Index(i, j, 0, S.w, S.h)];
    var iyy := S.data[Index(i, j, 1, S.w, S.h)];
    var ixy := S.data[Index(i, j, 2, S.w, S.h)];
    var ixt := S.data[Index(i, j, 3, S.w, S.h)];
    var iyt := S.data[Index(i, j, 4, S.w, S.h)];
    var T := Vec2(-ixt, -iyt);
    var M := Mat2(ixx, ixy, ixy, iyy);
    assert M == StructureAt(S.View(), i, j) && T == TimeTermsAt(S.View(), i, j);
    var Minv := invert(M);
    var V := Apply(Minv, T);
    v.SetPixel(i / stride, j / stride, 0, V.x);
    v.SetPixel(i / stride, j / stride, 1, V.y);
  }

  /** One row of samples of velocity_image: i runs from (stride - 1) / 2
      in steps of stride while it stays inside S. */
  method VelocityRow(S: Image, v: Image, stride: int, invert: Mat2 -> Mat2, j: int, ghost y: int)
    requires S.Valid() && v.Valid() && v.data != S.data && S.c >= 5 && stride >= 1
    requires v.w == S.w / stride && v.h == S.h / stride && v.c == 3
    requires 0 <= y && j == SampleAt(y, stride) && j < S.h
    modifies v.data
    ensures forall px, py, pz :: v.View().Inside(px, py, pz) ==>
      v.View().GetPixel(px, py, pz) ==
        if py == y && pz == 0 then SampledFlow(S.View(), stride, px, py, invert).x
        else if py == y && pz == 1 then SampledFlow(S.View(), stride, px, py, invert).y
        else old(v.View()).GetPixel(px, py, pz)
  {
    SampleInside(y, stride, S.h);
    var i := SampleStart(stride);
    ghost var x := 0;
    while i < S.w
      invariant 0 <= x && i == SampleAt(x, stride)
      invariant forall px, py, pz :: v.View().Inside(px, py, pz) ==>
        v.View().GetPixel(px, py, pz) ==
          if py == y && pz == 0 && px < x then SampledFlow(S.View(), stride, px, py, invert).x
          else if py == y && pz == 1 && px < x then SampledFlow(S.View(), stride, px, py, invert).y
          else old(v.View()).GetPixel(px, py, pz)
      decreases S.w - i
    {
      SampleInside(x, stride, S.w);
      VelocityCell(S, v, stride, invert, i, j);
      i := i + stride;
      x := x + 1;
    }
    SampleInside(x, stride, S.w);
  }

  /** velocity_image: rows j from (stride - 1) / 2 in steps of stride, each
      sampled along i the same way; the result has S.w / stride by
      S.h / stride pixels and three channels, of which channel 2 is never
      written. blank is the fresh buffer's unspecified contents. */
  method VelocityImage(S: Image, stride: int, invert: Mat2 -> Mat2) returns (v: Image, ghost blank: Img)
    requires S.Valid() && S.c >= 5 && stride >= 1
    ensures v.Valid() && fresh(v) && fresh(v.data) && blank.Valid()
    ensures blank.w == S.w / stride && blank.h == S.h / stride && blank.c == 3
    ensures v.View() == Velocity(S.View(), stride, invert, blank)
  {
    v := new Image(S.w / stride, S.h / stride, 3);
    blank := v.View();
    var j := SampleStart(stride);
    ghost var y := 0;
    while j < S.h
      invariant 0 <= y && j == SampleAt(y, stride)
      invariant forall px, py, pz :: v.View().Inside(px, py, pz) ==>
        v.View().GetPixel(px, py, pz) ==
          if py < y && pz == 0 then SampledFlow(S.View(), stride, px, py, invert).x
          else if py < y && pz == 1 then SampledFlow(S.View(), stride, px, py, invert).y
          else blank.GetPixel(px, py, pz)
      decreases S.h - j
    {
      VelocityRow(S, v, stride, invert, j, y);
      j := j + stride;
      y := y + 1;
    }
    SampleInside(y, stride, S.h);
    ExtEq(v.View(), Velocity(S.View(), stride, invert, blank));
  }

  // ---------------------------------------------------------------------
  // constrain_image

  /** What constrain_image does to one value: first raise it to -v, then
      lower it to v, in that order. */
  function Constrained(x: real, v: real): real
  {
    var raised := if x < -v then -v else x;
    if raised > v then v else raised
  }

  /** The image after constrain_image: every buffer value constrained. */
  function ConstrainedImg(im: Img, v: real): (r: Img)
    ensures r.w == im.w && r.h == im.h && r.c == im.c && |r.data| == |im.data|
    ensures im.Valid() ==> r.Valid()
  {
    Img(im.w, im.h, im.c, seq(|im.data|, i requires 0 <= i < |im.data| => Constrained(im.data[i], v)))
  }

  /** For v >= 0 every pixel ends up in [-v, v], and pixels already there
      are unchanged. */
  lemma ConstrainedInRange(im: Img, v: real, x: int, y: int, z: int)
    requires im.Valid() && v >= 0.0 && im.Inside(x, y, z)
    ensures ConstrainedImg(im, v).Valid()
    ensures -v <= ConstrainedImg(im, v).GetPixel(x, y, z) <= v
    ensures -v <= im.GetPixel(x, y, z) <= v ==> ConstrainedImg(im, v).GetPixel(x, y, z) == im.GetPixel(x, y, z)
  {
    var r := ConstrainedImg(im, v);
    assert r.GetPixel(x, y, z) == Constrained(im.GetPixel(x, y, z), v);
  }

  /** A negative bound maps every value to v: the lower clamp lifts it to
      -v, which the upper clamp then pulls down to v. */
  lemma ConstrainedNegativeBound(im: Img, v: real, x: int, y: int, z: int)
    requires im.Valid() && v < 0.0 && im.Inside(x, y, z)
    ensures ConstrainedImg(im, v).Valid() && ConstrainedImg(im, v).GetPixel(x, y, z) == v
  {
    var r := ConstrainedImg(im, v);
    assert r.GetPixel(x, y, z) == Constrained(im.GetPixel(x, y, z), v);
  }

  /** constrain_image is idempotent, whatever v. */
  lemma ConstrainedIdempotent(im: Img, v: real)
    ensures ConstrainedImg(ConstrainedImg(im, v), v) == ConstrainedImg(im, v)
  {
    var once := ConstrainedImg(im, v);
    var twice := ConstrainedImg(once, v);
    forall i | 0 <= i < |im.data|
      ensures twice.data[i] == once.data[i]
    {
      var a := im.data[i];
      assert Constrained(Constrained(a, v), v) == Constrained(a, v);
    }
  }

  /** constrain_image: in place, over all w * h * c values of the buffer. */
  method ConstrainImage(im: Image, v: real)
    requires im.Valid()
    modifies im.data
    ensures im.View() == ConstrainedImg(old(im.View()), v)
  {
    SizeIsProduct(im.w, im.h, im.c);
    ghost var before := im.data[..];
    for i := 0 to im.w * im.h * im.c
      invariant forall i' :: 0 <= i' < i ==> im.data[i'] == Constrained(before[i'], v)
      invariant forall i' :: i <= i' < im.data.Length ==> im.data[i'] == before[i']
    {
      if im.data[i] < -v {
        im.data[i] := -v;
      }
      if im.data[i] > v {
        im.data[i] := v;
      }
    }
  }
}
