/** Convolution and kernels of src/hw2/filter_image.c: L1 normalisation, the
    box kernel, convolve_image with its channel broadcast and collapse, the
    fixed 3x3 kernels, pointwise sums and differences, and
    feature_normalize. */
module Filter {
  import opened Raster

  // ---------------------------------------------------------------------
  // Folds over the buffer in scan order

  /** The sum of s accumulated from the front, as the C loops do. */
  function Total(s: seq<real>): real
  {
    if |s| == 0 then 0.0 else Total(s[..|s| - 1]) + s[|s| - 1]
  }

  /** The smaller of two values, as fmin. */
  function Min(a: real, b: real): real
  {
    if a <= b then a else b
  }

  /** The larger of two values, as fmax. */
  function Max(a: real, b: real): real
  {
    if a >= b then a else b
  }

  /** INT_MAX and INT_MIN, the starting values of feature_normalize's running
      extremes, taken at their integer values (as a float INT_MAX rounds up
      to 2^31). */
  const IntMax: real := 2147483647.0
  const IntMin: real := -2147483648.0

  /** The running minimum of feature_normalize, started at INT_MAX. */
  function Lowest(s: seq<real>): real
  {
    if |s| == 0 then IntMax else Min(s[|s| - 1], Lowest(s[..|s| - 1]))
  }

  /** The running maximum of feature_normalize, started at INT_MIN. */
  function Highest(s: seq<real>): real
  {
    if |s| == 0 then IntMin else Max(s[|s| - 1], Highest(s[..|s| - 1]))
  }

  /** Extending a prefix by one element. */
  lemma PrefixExtend(s: seq<real>, k: int)
    requires 0 <= k < |s|
    ensures s[..k + 1][..k] == s[..k] && s[..k + 1][k] == s[k] && |s[..k + 1]| == k + 1
  {
  }

  lemma DivideSum(a: real, b: real, d: real)
    requires d != 0.0
    ensures a / d + b / d == (a + b) / d
  {
  }

  /** Dividing every value by d divides the total by d. */
  lemma {:induction false} TotalDivided(s: seq<real>, t: seq<real>, d: real)
    requires d != 0.0 && |t| == |s|
    requires forall i :: 0 <= i < |s| ==> t[i] == s[i] / d
    ensures Total(t) == Total(s) / d
  {
    if |s| > 0 {
      var n := |s| - 1;
      TotalDivided(s[..n], t[..n], d);
      DivideSum(Total(s[..n]), s[n], d);
    }
  }

  /** n copies of v add up to n * v. */
  lemma {:induction false} TotalConstant(s: seq<real>, v: real)
    requires forall i :: 0 <= i < |s| ==> s[i] == v
    ensures Total(s) == (|s| as real) * v
  {
    if |s| > 0 {
      TotalConstant(s[..|s| - 1], v);
    }
  }

  /** The running minimum is at most every value and at most INT_MAX, and it
      is INT_MAX or one of the values. */
  lemma {:induction false} LowestBounds(s: seq<real>)
    ensures Lowest(s) <= IntMax
    ensures forall i :: 0 <= i < |s| ==> Lowest(s) <= s[i]
    ensures Lowest(s) == IntMax || exists i :: 0 <= i < |s| && Lowest(s) == s[i]
  {
    if |s| > 0 {
      var n := |s| - 1;
      LowestBounds(s[..n]);
      assert forall i :: 0 <= i < n ==> s[..n][i] == s[i];
      if Lowest(s) != IntMax && Lowest(s) != s[n] {
        var i :| 0 <= i < n && Lowest(s[..n]) == s[..n][i];
        assert Lowest(s) == s[i];
      }
    }
  }

  /** The running maximum is at least every value and at least INT_MIN, and
      it is INT_MIN or one of the values. */
  lemma {:induction false} HighestBounds(s: seq<real>)
    ensures Highest(s) >= IntMin
    ensures forall i :: 0 <= i < |s| ==> Highest(s) >= s[i]
    ensures Highest(s) == IntMin || exists i :: 0 <= i < |s| && Highest(s) == s[i]
  {
    if |s| > 0 {
      var n := |s| - 1;
      HighestBounds(s[..n]);
      assert forall i :: 0 <= i < n ==> s[..n][i] == s[i];
      if Highest(s) != IntMin && Highest(s) != s[n] {
        var i :| 0 <= i < n && Highest(s[..n]) == s[..n][i];
        assert Highest(s) == s[i];
      }
    }
  }

  // ---------------------------------------------------------------------
  // L1 normalisation and the box kernel

  /** l1_normalize's result: every value divided by the buffer's total. When
      the buffer is not empty the total must be nonzero. */
  function L1Normalized(im: Img): (r: Img)
    requires im.Valid() && (|im.data| == 0 || Total(im.data) != 0.0)
    ensures r.Valid() && r.w == im.w && r.h == im.h && r.c == im.c
  {
    Img(im.w, im.h, im.c, seq(|im.data|, j requires 0 <= j < |im.data| => im.data[j] / Total(im.data)))
  }

  /** Each pixel of the L1-normalised image is the pixel divided by the total. */
  lemma L1NormalizedAt(im: Img, x: int, y: int, z: int)
    requires im.Valid() && Total(im.data) != 0.0 && im.Inside(x, y, z)
    ensures L1Normalized(im).GetPixel(x, y, z) == im.GetPixel(x, y, z) / Total(im.data)
  {
    IndexInBuffer(x, y, z, im.w, im.h, im.c);
  }

  /** After l1_normalize the values of a nonempty image sum to one. */
  lemma L1NormalizedSumsToOne(im: Img)
    requires im.Valid() && |im.data| > 0 && Total(im.data) != 0.0
    ensures Total(L1Normalized(im).data) == 1.0
  {
    var t := Total(im.data);
    TotalDivided(im.data, L1Normalized(im).data, t);
    assert t / t == 1.0;
  }

  /** The w-by-w box kernel: one channel, every entry 1 / (w * w). */
  function BoxKernel(w: nat): Img
    requires w >= 1
  {
    Constant(w, w, 1, 1.0 / ((w * w) as real))
  }

  lemma ReciprocalTimes(n: real)
    requires n != 0.0
    ensures n * (1.0 / n) == 1.0
  {
  }

  /** The box kernel is w-by-w with one channel and sums to one. */
  lemma BoxKernelSumsToOne(w: nat)
    requires w >= 1
    ensures BoxKernel(w).Valid() && BoxKernel(w).w == w && BoxKernel(w).h == w && BoxKernel(w).c == 1
    ensures Total(BoxKernel(w).data) == 1.0
  {
    SizeIsProduct(w, w, 1);
    MulMono(1, w, w);
    var n := (w * w) as real;
    TotalConstant(BoxKernel(w).data, 1.0 / n);
    ReciprocalTimes(n);
  }

  /** The box kernel is the L1 normalisation of the all-ones kernel. */
  lemma BoxKernelIsNormalizedOnes(w: nat)
    requires w >= 1
    ensures Total(Constant(w, w, 1, 1.0).data) == (w * w) as real
    ensures L1Normalized(Constant(w, w, 1, 1.0)) == BoxKernel(w)
  {
    SizeIsProduct(w, w, 1);
    MulMono(1, w, w);
    TotalConstant(Constant(w, w, 1, 1.0).data, 1.0);
  }

  /** The first loop nest of l1_normalize: the sum of all pixels in planar
      scan order. */
  method PixelSum(im: Image) returns (sum: real)
    requires im.Valid()
    ensures sum == Total(im.data[..])
  {
    sum := 0.0;
    for z := 0 to im.c
      invariant 0 <= Index(0, 0, z, im.w, im.h) <= im.data.Length
      invariant sum == Total(im.data[..Index(0, 0, z, im.w, im.h)])
    {
      for y := 0 to im.h
        invariant 0 <= Index(0, y, z, im.w, im.h) <= im.data.Length
        invariant sum == Total(im.data[..Index(0, y, z, im.w, im.h)])
      {
        for x := 0 to im.w
          invariant 0 <= Index(x, y, z, im.w, im.h) <= im.data.Length
          invariant sum == Total(im.data[..Index(x, y, z, im.w, im.h)])
        {
          IndexInBuffer(x, y, z, im.w, im.h, im.c);
          PrefixExtend(im.data[..], Index(x, y, z, im.w, im.h));
          sum := sum + im.View().GetPixel(x, y, z);
          ScanPrefix(x + 1, y, z, im.w, im.h, im.c);
        }
        ScanEnds(y, z, im.w, im.h);
        ScanPrefix(0, y + 1, z, im.w, im.h, im.c);
      }
      ScanEnds(im.h, z, im.w, im.h);
      ScanEnds(0, z, im.w, im.h);
      ScanPrefix(0, 0, z + 1, im.w, im.h, im.c);
    }
    assert im.data[..Index(0, 0, im.c, im.w, im.h)] == im.data[..];
  }

  /** l1_normalize: divides every pixel by the sum of all pixels, in place. */
  method L1Normalize(im: Image)
    requires im.Valid() && (im.data.Length == 0 || Total(im.data[..]) != 0.0)
    modifies im.data
    ensures im.View() == L1Normalized(old(im.View()))
  {
    ghost var before := im.View();
    var sum := PixelSum(im);
    ghost var spec := L1Normalized(before);
    for z := 0 to im.c
      invariant forall x', y', z' :: im.View().Inside(x', y', z') ==>
        im.View().GetPixel(x', y', z') == if z' < z then spec.GetPixel(x', y', z') else before.GetPixel(x', y', z')
    {
      for y := 0 to im.h
        invariant forall x', y', z' :: im.View().Inside(x', y', z') ==>
          im.View().GetPixel(x', y', z') ==
            if z' < z || (z' == z && y' < y) then spec.GetPixel(x', y', z') else before.GetPixel(x', y', z')
      {
        for x := 0 to im.w
          invariant forall x', y', z' :: im.View().Inside(x', y', z') ==>
            im.View().GetPixel(x', y', z') ==
              if z' < z || (z' == z && (y' < y || (y' == y && x' < x))) then spec.GetPixel(x', y', z')
              else before.GetPixel(x', y', z')
        {
          L1NormalizedAt(before, x, y, z);
          im.SetPixel(x, y, z, im.View().GetPixel(x, y, z) / sum);
        }
      }
    }
    ExtEq(im.View(), spec);
  }

  /** Fills channel 0 of a one-channel image with v. */
  method FillPlane(im: Image, v: real)
    requires im.Valid() && im.c == 1
    modifies im.data
    ensures im.View() == Constant(im.w, im.h, 1, v)
  {
    for y := 0 to im.h
      invariant forall x', y', z' :: im.View().Inside(x', y', z') && y' < y ==> im.View().GetPixel(x', y', z') == v
    {
      for x := 0 to im.w
        invariant forall x', y', z' :: im.View().Inside(x', y', z') && (y' < y || (y' == y && x' < x)) ==>
          im.View().GetPixel(x', y', z') == v
      {
        im.SetPixel(x, y, 0, v);
      }
    }
    ExtEq(im.View(), Constant(im.w, im.h, 1, v));
  }

  /** make_box_filter: a fresh w-by-w one-channel kernel of ones, L1
      normalised, which is the box kernel (and empty when w is 0). */
  method MakeBoxFilter(w: int) returns (box: Image)
    requires w >= 0
    ensures box.Valid() && fresh(box) && fresh(box.data)
    ensures box.w == w && box.h == w && box.c == 1
    ensures w >= 1 ==> box.View() == BoxKernel(w)
  {
    box := new Image(w, w, 1);
    FillPlane(box, 1.0);
    if w >= 1 {
      BoxKernelIsNormalizedOnes(w);
      MulMono(1, w, w);
    } else {
      SizeIsProduct(w, w, 1);
    }
    L1Normalize(box);
  }

  // ---------------------------------------------------------------------
  // Convolution

  /** A loop over the (x, y) positions of f can read them with get_pixel:
      f is valid and, if it has any position, at least one channel. This is
      what convolve_image needs of its kernel. */
  predicate Scannable(f: Img)
  {
    f.Valid() && (f.w == 0 || f.h == 0 || f.c >= 1)
  }

  /** The weight used at kernel position (xf, yf) for image channel z: a
      one-channel kernel is shared by every channel. */
  function KernelScalar(f: Img, xf: int, yf: int, z: int): real
    requires f.Readable()
  {
    if f.c == 1 then f.GetPixel(xf, yf, 0) else f.GetPixel(xf, yf, z)
  }

  /** One term of the footprint sum: the weight times the clamped image
      pixel under it, with the kernel centred at (f.w / 2, f.h / 2). */
  function Tap(im: Img, f: Img, x: int, y: int, z: int, xf: int, yf: int): real
    requires im.Readable() && f.Readable()
  {
    KernelScalar(f, xf, yf, z) * im.GetPixel(x + xf - f.w / 2, y + yf - f.h / 2, z)
  }

  /** The terms of kernel column xf for rows 0 .. n - 1. */
  function ColumnSum(im: Img, f: Img, x: int, y: int, z: int, xf: int, n: nat): real
    requires im.Readable() && Scannable(f) && 0 <= xf < f.w && n <= f.h
  {
    if n == 0 then 0.0 else ColumnSum(im, f, x, y, z, xf, n - 1) + Tap(im, f, x, y, z, xf, n - 1)
  }

  /** The terms of kernel columns 0 .. m - 1, columns outermost as in the C loop. */
  function FootprintSum(im: Img, f: Img, x: int, y: int, z: int, m: nat): real
    requires im.Readable() && Scannable(f) && m <= f.w
  {
    if m == 0 then 0.0 else FootprintSum(im, f, x, y, z, m - 1) + ColumnSum(im, f, x, y, z, m - 1, f.h)
  }

  /** The per-channel result of convolve_image. */
  function Preserved(im: Img, f: Img): Img
    requires im.Valid() && Scannable(f)
  {
    Tabulate(im.w, im.h, im.c, (x, y, z) requires im.Readable() && Scannable(f) =>
      FootprintSum(im, f, x, y, z, f.w))
  }

  /** The sum over channels 0 .. n - 1 of pixel (x, y). */
  function ChannelSum(p: Img, x: int, y: int, n: nat): real
    requires p.Valid() && n <= p.c && (n == 0 || p.Readable())
  {
    if n == 0 then 0.0 else ChannelSum(p, x, y, n - 1) + p.GetPixel(x, y, n - 1)
  }

  /** The one-channel image holding the per-pixel sum over p's channels. */
  function Collapsed(p: Img): Img
    requires p.Valid()
  {
    Tabulate(p.w, p.h, 1, (x, y, z) requires p.Valid() && (p.c == 0 || p.Readable()) =>
      ChannelSum(p, x, y, p.c))
  }

  /** convolve_image: the per-channel result when preserve is set, and its
      collapse to one channel otherwise. */
  function Convolved(im: Img, f: Img, preserve: bool): Img
    requires im.Valid() && Scannable(f)
  {
    if preserve then Preserved(im, f) else Collapsed(Preserved(im, f))
  }

  /** Each pixel of the per-channel result is the footprint sum there. */
  lemma PreservedAt(im: Img, f: Img, x: int, y: int, z: int)
    requires im.Valid() && Scannable(f) && im.Inside(x, y, z)
    ensures Preserved(im, f).Valid() && Preserved(im, f).Readable()
    ensures Preserved(im, f).w == im.w && Preserved(im, f).h == im.h && Preserved(im, f).c == im.c
    ensures Preserved(im, f).GetPixel(x, y, z) == FootprintSum(im, f, x, y, z, f.w)
  {
  }

  /** The result has the image's width and height, and either its channels
      or a single one. Each output pixel is the footprint sum at that pixel,
      or the sum over channels of the footprint sums when collapsed. */
  lemma ConvolvedAt(im: Img, f: Img, preserve: bool, x: int, y: int, z: int)
    requires im.Valid() && Scannable(f)
    requires 0 <= x < im.w && 0 <= y < im.h && 0 <= z < (if preserve then im.c else 1)
    ensures Convolved(im, f, preserve).Valid()
    ensures Convolved(im, f, preserve).w == im.w && Convolved(im, f, preserve).h == im.h
    ensures Convolved(im, f, preserve).c == if preserve then im.c else 1
    ensures preserve ==> Convolved(im, f, preserve).GetPixel(x, y, z) == FootprintSum(im, f, x, y, z, f.w)
    ensures !preserve ==> Convolved(im, f, preserve).GetPixel(x, y, z) == ChannelSum(Preserved(im, f), x, y, im.c)
  {
  }

  /** A one-channel 1x1 kernel whose single weight is 1. */
  predicate IsUnitKernel(f: Img)
  {
    f.Readable() && f.w == 1 && f.h == 1 && f.c == 1 && f.GetPixel(0, 0, 0) == 1.0
  }

  /** The footprint sum under a unit kernel is the pixel itself. */
  lemma UnitFootprint(im: Img, f: Img, x: int, y: int, z: int)
    requires im.Readable() && IsUnitKernel(f)
    ensures FootprintSum(im, f, x, y, z, 1) == im.GetPixel(x, y, z)
  {
    var p := im.GetPixel(x, y, z);
    assert Tap(im, f, x, y, z, 0, 0) == 1.0 * p;
    assert ColumnSum(im, f, x, y, z, 0, 1) == Tap(im, f, x, y, z, 0, 0);
  }

  /** Convolving with a unit kernel and keeping the channels returns the
      image unchanged. */
  lemma ConvolveIdentity(im: Img, f: Img)
    requires im.Valid() && IsUnitKernel(f)
    ensures Convolved(im, f, true) == im
  {
    forall x, y, z | im.Inside(x, y, z)
      ensures Preserved(im, f).GetPixel(x, y, z) == im.GetPixel(x, y, z)
    {
      ConvolvedAt(im, f, true, x, y, z);
      UnitFootprint(im, f, x, y, z);
    }
    ExtEq(Preserved(im, f), im);
  }

  /** The 1x1 kernel holding 1 is a unit kernel. */
  lemma OneIsUnitKernel()
    ensures IsUnitKernel(Img(1, 1, 1, [1.0]))
  {
  }

  // Convolving the zero image

  /** Every pixel of the image is 0. */
  ghost predicate IsZero(im: Img)
    requires im.Readable()
  {
    forall x, y, z :: im.Inside(x, y, z) ==> im.GetPixel(x, y, z) == 0.0
  }

  /** Over the zero image every term is 0, wherever the kernel reaches. */
  lemma TapOfZero(im: Img, f: Img, x: int, y: int, z: int, xf: int, yf: int)
    requires im.Readable() && f.Readable() && IsZero(im)
    ensures Tap(im, f, x, y, z, xf, yf) == 0.0
  {
    var px, py := x + xf - f.w / 2, y + yf - f.h / 2;
    GetPixelClamped(im, px, py, z);
    var v := im.GetPixel(px, py, z);
    assert v == 0.0;
  }

  lemma {:induction false} ColumnOfZero(im: Img, f: Img, x: int, y: int, z: int, xf: int, n: nat)
    requires im.Readable() && Scannable(f) && 0 <= xf < f.w && n <= f.h && IsZero(im)
    ensures ColumnSum(im, f, x, y, z, xf, n) == 0.0
  {
    if n > 0 {
      ColumnOfZero(im, f, x, y, z, xf, n - 1);
      TapOfZero(im, f, x, y, z, xf, n - 1);
    }
  }

  lemma {:induction false} FootprintOfZero(im: Img, f: Img, x: int, y: int, z: int, m: nat)
    requires im.Readable() && Scannable(f) && m <= f.w && IsZero(im)
    ensures FootprintSum(im, f, x, y, z, m) == 0.0
  {
    if m > 0 {
      FootprintOfZero(im, f, x, y, z, m - 1);
      ColumnOfZero(im, f, x, y, z, m - 1, f.h);
    }
  }

  lemma {:induction false} ChannelSumOfZero(p: Img, x: int, y: int, n: nat)
    requires p.Valid() && n <= p.c && (n == 0 || p.Readable())
    requires forall z :: 0 <= z < n ==> p.GetPixel(x, y, z) == 0.0
    ensures ChannelSum(p, x, y, n) == 0.0
  {
    if n > 0 {
      ChannelSumOfZero(p, x, y, n - 1);
    }
  }

  /** When every footprint sum vanishes, so does the result, whether or not
      the channels are collapsed. */
  lemma ConvolveVanishing(im: Img, f: Img, preserve: bool)
    requires im.Valid() && Scannable(f)
    requires im.Readable() ==> forall x, y, z :: im.Inside(x, y, z) ==> FootprintSum(im, f, x, y, z, f.w) == 0.0
    ensures Convolved(im, f, preserve) == Constant(im.w, im.h, if preserve then im.c else 1, 0.0)
  {
    var p := Preserved(im, f);
    forall x, y, z | p.Inside(x, y, z)
      ensures p.GetPixel(x, y, z) == 0.0
    {
      PreservedAt(im, f, x, y, z);
    }
    ExtEq(p, Constant(im.w, im.h, im.c, 0.0));
    if !preserve {
      var q := Collapsed(p);
      forall x, y, z | q.Inside(x, y, z)
        ensures q.GetPixel(x, y, z) == 0.0
      {
        ChannelSumOfZero(p, x, y, p.c);
      }
      ExtEq(q, Constant(im.w, im.h, 1, 0.0));
    }
  }

  /** Every kernel maps the zero image to zero, whether or not the channels
      are collapsed. */
  lemma ConvolveZero(im: Img, f: Img, preserve: bool)
    requires im.Readable() && Scannable(f) && IsZero(im)
    ensures Convolved(im, f, preserve) == Constant(im.w, im.h, if preserve then im.c else 1, 0.0)
  {
    forall x, y, z | im.Inside(x, y, z)
      ensures FootprintSum(im, f, x, y, z, f.w) == 0.0
    {
      FootprintOfZero(im, f, x, y, z, f.w);
    }
    ConvolveVanishing(im, f, preserve);
  }

  // ---------------------------------------------------------------------
  // Convolving a flat image

  /** Every pixel of the image is v. */
  ghost predicate IsFlat(im: Img, v: real)
    requires im.Readable()
  {
    forall x, y, z :: im.Inside(x, y, z) ==> im.GetPixel(x, y, z) == v
  }

  /** Over a flat image every term is the weight times the flat value. */
  lemma TapOfFlat(im: Img, f: Img, x: int, y: int, z: int, xf: int, yf: int, v: real)
    requires im.Readable() && f.Readable() && IsFlat(im, v)
    ensures Tap(im, f, x, y, z, xf, yf) == KernelScalar(f, xf, yf, z) * v
  {
    var px, py := x + xf - f.w / 2, y + yf - f.h / 2;
    GetPixelClamped(im, px, py, z);
    TapIs(im, f, x, y, z, xf, yf, KernelScalar(f, xf, yf, z), v);
  }

  /** Over a flat image a term of a 3x3 kernel whose entry is e is e * v. */
  lemma Tap3OfFlat(im: Img, rows: seq<seq<real>>, x: int, y: int, z: int, xf: int, yf: int, v: real, e: real)
    requires |rows| == 3 && forall y :: 0 <= y < 3 ==> |rows[y]| == 3
    requires 0 <= xf < 3 && 0 <= yf < 3 && rows[yf][xf] == e
    requires im.Readable() && IsFlat(im, v)
    ensures Tap(im, Kernel3(rows), x, y, z, xf, yf) == e * v
  {
    Kernel3At(rows, xf, yf);
    TapOfFlat(im, Kernel3(rows), x, y, z, xf, yf, v);
  }

  /** The sum of the nine entries of a 3x3 kernel given by its rows. */
  function RowsTotal(rows: seq<seq<real>>): real
    requires |rows| == 3 && forall y :: 0 <= y < 3 ==> |rows[y]| == 3
  {
    (rows[0][0] + rows[1][0] + rows[2][0]) + (rows[0][1] + rows[1][1] + rows[2][1]) +
    (rows[0][2] + rows[1][2] + rows[2][2])
  }

  /** Three terms t_i = e_i * v add up to (e0 + e1 + e2) * v. */
  lemma Sum3(t0: real, t1: real, t2: real, e0: real, e1: real, e2: real, v: real)
    requires t0 == e0 * v && t1 == e1 * v && t2 == e2 * v
    ensures t0 + t1 + t2 == (e0 + e1 + e2) * v
  {
  }

  /** Three terms t_i = e_i * v whose weights cancel add up to 0. */
  lemma Cancel3(t0: real, t1: real, t2: real, e0: real, e1: real, e2: real, v: real)
    requires t0 == e0 * v && t1 == e1 * v && t2 == e2 * v && e0 + e1 + e2 == 0.0
    ensures t0 + t1 + t2 == 0.0
  {
    Sum3(t0, t1, t2, e0, e1, e2, v);
  }

  /** Over a flat image column xf of a 3x3 kernel contributes the column's
      weight times v. */
  lemma Column3OfFlat(im: Img, rows: seq<seq<real>>, x: int, y: int, z: int, xf: int, v: real, e: real)
    requires |rows| == 3 && forall y :: 0 <= y < 3 ==> |rows[y]| == 3
    requires 0 <= xf < 3 && im.Readable() && IsFlat(im, v)
    requires e == rows[0][xf] + rows[1][xf] + rows[2][xf]
    ensures ColumnSum(im, Kernel3(rows), x, y, z, xf, 3) == e * v
  {
    var k := Kernel3(rows);
    assert ColumnSum(im, k, x, y, z, xf, 1) == Tap(im, k, x, y, z, xf, 0);
    Tap3OfFlat(im, rows, x, y, z, xf, 0, v, rows[0][xf]);
    Tap3OfFlat(im, rows, x, y, z, xf, 1, v, rows[1][xf]);
    Tap3OfFlat(im, rows, x, y, z, xf, 2, v, rows[2][xf]);
    Sum3(Tap(im, k, x, y, z, xf, 0), Tap(im, k, x, y, z, xf, 1), Tap(im, k, x, y, z, xf, 2),
      rows[0][xf], rows[1][xf], rows[2][xf], v);
  }

  /** Over a flat image a 3x3 kernel whose entries sum to 0 gives a zero
      footprint sum everywhere. */
  lemma BalancedOfFlat(im: Img, rows: seq<seq<real>>, x: int, y: int, z: int, v: real)
    requires |rows| == 3 && forall y :: 0 <= y < 3 ==> |rows[y]| == 3
    requires RowsTotal(rows) == 0.0
    requires im.Readable() && IsFlat(im, v)
    ensures FootprintSum(im, Kernel3(rows), x, y, z, 3) == 0.0
  {
    var k := Kernel3(rows);
    FootprintOfColumns(im, k, x, y, z);
    var e0, e1, e2 := rows[0][0] + rows[1][0] + rows[2][0], rows[0][1] + rows[1][1] + rows[2][1], rows[0][2] + rows[1][2] + rows[2][2];
    Column3OfFlat(im, rows, x, y, z, 0, v, e0);
    Column3OfFlat(im, rows, x, y, z, 1, v, e1);
    Column3OfFlat(im, rows, x, y, z, 2, v, e2);
    Cancel3(ColumnSum(im, k, x, y, z, 0, 3), ColumnSum(im, k, x, y, z, 1, 3), ColumnSum(im, k, x, y, z, 2, 3), e0, e1, e2, v);
  }

  /** The footprint of a 3-wide kernel is the sum of its three columns. */
  lemma FootprintOfColumns(im: Img, k: Img, x: int, y: int, z: int)
    requires im.Readable() && Scannable(k) && k.w == 3
    ensures FootprintSum(im, k, x, y, z, 3) ==
      ColumnSum(im, k, x, y, z, 0, k.h) + ColumnSum(im, k, x, y, z, 1, k.h) + ColumnSum(im, k, x, y, z, 2, k.h)
  {
    assert FootprintSum(im, k, x, y, z, 1) == ColumnSum(im, k, x, y, z, 0, k.h);
  }

  /** The gx filter maps a flat image to zero. */
  lemma GxOfFlat(im: Img, v: real)
    requires im.Readable() && IsFlat(im, v)
    ensures Convolved(im, Kernel3(GxRows), false) == Constant(im.w, im.h, 1, 0.0)
  {
    forall x, y, z | im.Inside(x, y, z)
      ensures FootprintSum(im, Kernel3(GxRows), x, y, z, 3) == 0.0
    {
      BalancedOfFlat(im, GxRows, x, y, z, v);
    }
    ConvolveVanishing(im, Kernel3(GxRows), false);
  }

  /** The gy filter maps a flat image to zero. */
  lemma GyOfFlat(im: Img, v: real)
    requires im.Readable() && IsFlat(im, v)
    ensures Convolved(im, Kernel3(GyRows), false) == Constant(im.w, im.h, 1, 0.0)
  {
    forall x, y, z | im.Inside(x, y, z)
      ensures FootprintSum(im, Kernel3(GyRows), x, y, z, 3) == 0.0
    {
      BalancedOfFlat(im, GyRows, x, y, z, v);
    }
    ConvolveVanishing(im, Kernel3(GyRows), false);
  }

  /** A tap is the product of the weight and the pixel under it. */
  lemma TapIs(im: Img, f: Img, x: int, y: int, z: int, xf: int, yf: int, scalar: real, pixel: real)
    requires im.Readable() && f.Readable()
    requires scalar == KernelScalar(f, xf, yf, z)
    requires pixel == im.GetPixel(x + xf - f.w / 2, y + yf - f.h / 2, z)
    ensures Tap(im, f, x, y, z, xf, yf) == scalar * pixel
  {
  }

  /** The inner two loops of convolve_image: the footprint sum at (x, y, z). */
  method FootprintValue(im: Image, filter: Image, x: int, y: int, z: int) returns (value: real)
    requires im.Valid() && filter.Valid() && Scannable(filter.View()) && im.View().Inside(x, y, z)
    ensures value == FootprintSum(im.View(), filter.View(), x, y, z, filter.w)
  {
    var source, kernel := im.View(), filter.View();
    value := 0.0;
    for xf := 0 to filter.w
      invariant value == FootprintSum(source, kernel, x, y, z, xf)
    {
      for yf := 0 to filter.h
        invariant value == FootprintSum(source, kernel, x, y, z, xf) + ColumnSum(source, kernel, x, y, z, xf, yf)
      {
        var scalar: real;
        if filter.c == 1 {
          scalar := kernel.GetPixel(xf, yf, 0);
        } else {
          scalar := kernel.GetPixel(xf, yf, z);
        }
        var fx := x + xf - filter.w / 2;
        var fy := y + yf - filter.h / 2;
        var pixel := source.GetPixel(fx, fy, z);
        TapIs(source, kernel, x, y, z, xf, yf, scalar, pixel);
        value := value + scalar * pixel;
      }
    }
  }

  /** The first loop nest of convolve_image: a fresh image holding the
      footprint sum of every pixel in every channel. */
  method PreservedConvolution(im: Image, filter: Image) returns (r: Image)
    requires im.Valid() && filter.Valid() && Scannable(filter.View())
    ensures r.Valid() && fresh(r) && fresh(r.data)
    ensures r.View() == Preserved(im.View(), filter.View())
  {
    r := new Image(im.w, im.h, im.c);
    ghost var spec := Preserved(im.View(), filter.View());
    for z := 0 to im.c
      invariant forall x', y', z' :: r.View().Inside(x', y', z') && z' < z ==>
        r.View().GetPixel(x', y', z') == spec.GetPixel(x', y', z')
    {
      for y := 0 to im.h
        invariant forall x', y', z' :: r.View().Inside(x', y', z') && (z' < z || (z' == z && y' < y)) ==>
          r.View().GetPixel(x', y', z') == spec.GetPixel(x', y', z')
      {
        for x := 0 to im.w
          invariant forall x', y', z' ::
            r.View().Inside(x', y', z') && (z' < z || (z' == z && (y' < y || (y' == y && x' < x)))) ==>
            r.View().GetPixel(x', y', z') == spec.GetPixel(x', y', z')
        {
          var value := FootprintValue(im, filter, x, y, z);
          assert value == spec.GetPixel(x, y, z);
          r.SetPixel(x, y, z, value);
        }
      }
    }
    ExtEq(r.View(), spec);
  }

  /** The collapsing loop of convolve_image: the sum over channels at (x, y). */
  method ChannelTotal(p: Image, x: int, y: int) returns (value: real)
    requires p.Valid() && 0 <= x < p.w && 0 <= y < p.h
    ensures value == ChannelSum(p.View(), x, y, p.c)
  {
    value := 0.0;
    for z := 0 to p.c
      invariant value == ChannelSum(p.View(), x, y, z)
    {
      value := value + p.View().GetPixel(x, y, z);
    }
  }

  /** The collapsing loop nest of convolve_image: a fresh one-channel image
      holding the per-pixel sum over p's channels. */
  method CollapseChannels(p: Image) returns (r: Image)
    requires p.Valid()
    ensures r.Valid() && fresh(r) && fresh(r.data)
    ensures r.View() == Collapsed(p.View())
  {
    r := new Image(p.w, p.h, 1);
    ghost var spec := Collapsed(p.View());
    for y := 0 to p.h
      invariant forall x', y', z' :: r.View().Inside(x', y', z') && y' < y ==>
        r.View().GetPixel(x', y', z') == spec.GetPixel(x', y', z')
    {
      for x := 0 to p.w
        invariant forall x', y', z' :: r.View().Inside(x', y', z') && (y' < y || (y' == y && x' < x)) ==>
          r.View().GetPixel(x', y', z') == spec.GetPixel(x', y', z')
      {
        var value := ChannelTotal(p, x, y);
        r.SetPixel(x, y, 0, value);
      }
    }
    ExtEq(r.View(), spec);
  }

  /** convolve_image: a fresh image, per channel when preserve is nonzero and
      collapsed to one channel otherwise. */
  method ConvolveImage(im: Image, filter: Image, preserve: int) returns (r: Image)
    requires im.Valid() && filter.Valid() && Scannable(filter.View())
    ensures r.Valid() && fresh(r) && fresh(r.data)
    ensures r.View() == Convolved(im.View(), filter.View(), preserve != 0)
  {
    var preserved := PreservedConvolution(im, filter);
    if preserve == 0 {
      r := CollapseChannels(preserved);
    } else {
      r := preserved;
    }
  }

  // ---------------------------------------------------------------------
  // The fixed 3x3 kernels

  /** The rows vals[y][x] of a 3x3 table laid out as a one-channel buffer:
      entry (x, y) goes to x + 3 * y. */
  function Flatten3(rows: seq<seq<real>>): (s: seq<real>)
    requires |rows| == 3 && forall y :: 0 <= y < 3 ==> |rows[y]| == 3
    ensures |s| == 9
    ensures forall x, y :: 0 <= x < 3 && 0 <= y < 3 ==> s[x + 3 * y] == rows[y][x]
  {
    rows[0] + rows[1] + rows[2]
  }

  /** The 3x3 one-channel kernel with the given rows. */
  function Kernel3(rows: seq<seq<real>>): (k: Img)
    requires |rows| == 3 && forall y :: 0 <= y < 3 ==> |rows[y]| == 3
    ensures k.Valid() && k.w == 3 && k.h == 3 && k.c == 1
  {
    Img(3, 3, 1, Flatten3(rows))
  }

  /** Pixel (x, y) of the kernel is vals[y][x]. */
  lemma Kernel3At(rows: seq<seq<real>>, x: int, y: int)
    requires |rows| == 3 && forall y :: 0 <= y < 3 ==> |rows[y]| == 3
    requires 0 <= x < 3 && 0 <= y < 3
    ensures Kernel3(rows).GetPixel(x, y, 0) == rows[y][x]
  {
    MulIsProduct(y, 3);
    assert Index(x, y, 0, 3, 3) == x + 3 * y;
  }

  /** The loops shared by the make_*_filter functions: a fresh 3x3
      one-channel image whose pixel (x, y) is vals[y][x]. */
  method MakeKernel3(rows: seq<seq<real>>) returns (filter: Image)
    requires |rows| == 3 && forall y :: 0 <= y < 3 ==> |rows[y]| == 3
    ensures filter.Valid() && fresh(filter) && fresh(filter.data)
    ensures filter.View() == Kernel3(rows)
  {
    filter := new Image(3, 3, 1);
    for y := 0 to filter.h
      invariant forall x', y', z' :: filter.View().Inside(x', y', z') && y' < y ==>
        filter.View().GetPixel(x', y', z') == rows[y'][x']
    {
      for x := 0 to filter.w
        invariant forall x', y', z' :: filter.View().Inside(x', y', z') && (y' < y || (y' == y && x' < x)) ==>
          filter.View().GetPixel(x', y', z') == rows[y'][x']
      {
        filter.SetPixel(x, y, 0, rows[y][x]);
      }
    }
    forall x', y', z' | filter.View().Inside(x', y', z')
      ensures filter.View().GetPixel(x', y', z') == Kernel3(rows).GetPixel(x', y', z')
    {
      Kernel3At(rows, x', y');
    }
    ExtEq(filter.View(), Kernel3(rows));
  }

  const HighpassRows: seq<seq<real>> := [[0.0, -1.0, 0.0], [-1.0, 4.0, -1.0], [0.0, -1.0, 0.0]]
  const SharpenRows: seq<seq<real>> := [[0.0, -1.0, 0.0], [-1.0, 5.0, -1.0], [0.0, -1.0, 0.0]]
  const EmbossRows: seq<seq<real>> := [[-2.0, -1.0, 0.0], [-1.0, 1.0, 1.0], [0.0, 1.0, 2.0]]
  const GxRows: seq<seq<real>> := [[-1.0, 0.0, 1.0], [-2.0, 0.0, 2.0], [-1.0, 0.0, 1.0]]
  const GyRows: seq<seq<real>> := [[-1.0, -2.0, -1.0], [0.0, 0.0, 0.0], [1.0, 2.0, 1.0]]

  /** make_highpass_filter. */
  method MakeHighpassFilter() returns (filter: Image)
    ensures filter.Valid() && fresh(filter) && fresh(filter.data)
    ensures filter.View() == Kernel3(HighpassRows)
  {
    filter := MakeKernel3(HighpassRows);
  }

  /** make_sharpen_filter. */
  method MakeSharpenFilter() returns (filter: Image)
    ensures filter.Valid() && fresh(filter) && fresh(filter.data)
    ensures filter.View() == Kernel3(SharpenRows)
  {
    filter := MakeKernel3(SharpenRows);
  }

  /** make_emboss_filter. */
  method MakeEmbossFilter() returns (filter: Image)
    ensures filter.Valid() && fresh(filter) && fresh(filter.data)
    ensures filter.View() == Kernel3(EmbossRows)
  {
    filter := MakeKernel3(EmbossRows);
  }

  /** make_gx_filter. */
  method MakeGxFilter() returns (filter: Image)
    ensures filter.Valid() && fresh(filter) && fresh(filter.data)
    ensures filter.View() == Kernel3(GxRows)
  {
    filter := MakeKernel3(GxRows);
  }

  /** make_gy_filter. */
  method MakeGyFilter() returns (filter: Image)
    ensures filter.Valid() && fresh(filter) && fresh(filter.data)
    ensures filter.View() == Kernel3(GyRows)
  {
    filter := MakeKernel3(GyRows);
  }

  /** The total of a concatenation is the sum of the totals. */
  lemma {:induction false} TotalConcat(a: seq<real>, b: seq<real>)
    ensures Total(a + b) == Total(a) + Total(b)
    decreases |b|
  {
    if |b| > 0 {
      var n := |b| - 1;
      TotalConcat(a, b[..n]);
      assert (a + b)[..|a + b| - 1] == a + b[..n];
      assert (a + b)[|a + b| - 1] == b[n];
    } else {
      assert a + b == a;
    }
  }

  /** The total of a three-element row. */
  lemma Total3(s: seq<real>)
    requires |s| == 3
    ensures Total(s) == s[0] + s[1] + s[2]
  {
    var two, one := s[..2], s[..1];
    assert two[..1] == one && one[..0] == [];
    assert Total(one) == s[0];
    assert Total(two) == s[0] + s[1];
  }

  /** A 3x3 kernel weighs the sum of its nine entries. */
  lemma Weight3(rows: seq<seq<real>>)
    requires |rows| == 3 && forall y :: 0 <= y < 3 ==> |rows[y]| == 3
    ensures Total(Kernel3(rows).data) ==
      rows[0][0] + rows[0][1] + rows[0][2] + rows[1][0] + rows[1][1] + rows[1][2] +
      rows[2][0] + rows[2][1] + rows[2][2]
  {
    TotalConcat(rows[0] + rows[1], rows[2]);
    TotalConcat(rows[0], rows[1]);
    Total3(rows[0]);
    Total3(rows[1]);
    Total3(rows[2]);
  }

  /** Highpass, gx and gy weigh 0 in total, so they send a flat region to 0;
      sharpen and emboss weigh 1, so they keep it. */
  lemma FixedKernelWeights()
    ensures Total(Kernel3(HighpassRows).data) == 0.0
    ensures Total(Kernel3(GxRows).data) == 0.0
    ensures Total(Kernel3(GyRows).data) == 0.0
    ensures Total(Kernel3(SharpenRows).data) == 1.0
    ensures Total(Kernel3(EmbossRows).data) == 1.0
  {
    Weight3(HighpassRows);
    Weight3(GxRows);
    Weight3(GyRows);
    Weight3(SharpenRows);
    Weight3(EmbossRows);
  }

  // ---------------------------------------------------------------------
  // Pointwise sums and differences

  /** add_image and sub_image read b wherever they read a: b must be readable
      unless a has no pixels. */
  predicate Combinable(a: Img, b: Img)
  {
    a.Valid() && b.Valid() && (a.w == 0 || a.h == 0 || a.c == 0 || b.Readable())
  }

  /** add_image: a's shape, each pixel a's plus b's clamped read there. */
  function Added(a: Img, b: Img): (r: Img)
    requires Combinable(a, b)
    ensures r.Valid() && r.w == a.w && r.h == a.h && r.c == a.c
    ensures forall x, y, z :: r.Inside(x, y, z) ==> r.GetPixel(x, y, z) == a.GetPixel(x, y, z) + b.GetPixel(x, y, z)
  {
    Tabulate(a.w, a.h, a.c, (x, y, z) requires Combinable(a, b) && a.Inside(x, y, z) =>
      a.GetPixel(x, y, z) + b.GetPixel(x, y, z))
  }

  /** sub_image: a's shape, each pixel a's minus b's clamped read there. */
  function Subtracted(a: Img, b: Img): (r: Img)
    requires Combinable(a, b)
    ensures r.Valid() && r.w == a.w && r.h == a.h && r.c == a.c
    ensures forall x, y, z :: r.Inside(x, y, z) ==> r.GetPixel(x, y, z) == a.GetPixel(x, y, z) - b.GetPixel(x, y, z)
  {
    Tabulate(a.w, a.h, a.c, (x, y, z) requires Combinable(a, b) && a.Inside(x, y, z) =>
      a.GetPixel(x, y, z) - b.GetPixel(x, y, z))
  }

  /** Subtracting b undoes adding it, whatever b's shape. */
  lemma SubAddInverse(a: Img, b: Img)
    requires Combinable(a, b)
    ensures Combinable(Added(a, b), b)
    ensures Subtracted(Added(a, b), b) == a
  {
    ExtEq(Subtracted(Added(a, b), b), a);
  }

  /** Adding b undoes subtracting it. */
  lemma AddSubInverse(a: Img, b: Img)
    requires Combinable(a, b)
    ensures Combinable(Subtracted(a, b), b)
    ensures Added(Subtracted(a, b), b) == a
  {
    ExtEq(Added(Subtracted(a, b), b), a);
  }

  /** For images of one shape the sum does not depend on the order. */
  lemma AddedCommutes(a: Img, b: Img)
    requires Combinable(a, b) && a.w == b.w && a.h == b.h && a.c == b.c
    ensures Combinable(b, a)
    ensures Added(a, b) == Added(b, a)
  {
    ExtEq(Added(a, b), Added(b, a));
  }

  /** add_image: a fresh image holding the pointwise sum. */
  method AddImage(a: Image, b: Image) returns (r: Image)
    requires Combinable(a.View(), b.View())
    ensures r.Valid() && fresh(r) && fresh(r.data)
    ensures r.View() == Added(a.View(), b.View())
  {
    r := new Image(a.w, a.h, a.c);
    ghost var spec := Added(a.View(), b.View());
    for z := 0 to a.c
      invariant forall x', y', z' :: r.View().Inside(x', y', z') && z' < z ==>
        r.View().GetPixel(x', y', z') == spec.GetPixel(x', y', z')
    {
      for y := 0 to a.h
        invariant forall x', y', z' :: r.View().Inside(x', y', z') && (z' < z || (z' == z && y' < y)) ==>
          r.View().GetPixel(x', y', z') == spec.GetPixel(x', y', z')
      {
        for x := 0 to a.w
          invariant forall x', y', z' ::
            r.View().Inside(x', y', z') && (z' < z || (z' == z && (y' < y || (y' == y && x' < x)))) ==>
            r.View().GetPixel(x', y', z') == spec.GetPixel(x', y', z')
        {
          r.SetPixel(x, y, z, a.View().GetPixel(x, y, z) + b.View().GetPixel(x, y, z));
        }
      }
    }
    ExtEq(r.View(), spec);
  }

  /** sub_image: a fresh image holding the pointwise difference. */
  method SubImage(a: Image, b: Image) returns (r: Image)
    requires Combinable(a.View(), b.View())
    ensures r.Valid() && fresh(r) && fresh(r.data)
    ensures r.View() == Subtracted(a.View(), b.View())
  {
    r := new Image(a.w, a.h, a.c);
    ghost var spec := Subtracted(a.View(), b.View());
    for z := 0 to a.c
      invariant forall x', y', z' :: r.View().Inside(x', y', z') && z' < z ==>
        r.View().GetPixel(x', y', z') == spec.GetPixel(x', y', z')
    {
      for y := 0 to a.h
        invariant forall x', y', z' :: r.View().Inside(x', y', z') && (z' < z || (z' == z && y' < y)) ==>
          r.View().GetPixel(x', y', z') == spec.GetPixel(x', y', z')
      {
        for x := 0 to a.w
          invariant forall x', y', z' ::
            r.View().Inside(x', y', z') && (z' < z || (z' == z && (y' < y || (y' == y && x' < x)))) ==>
            r.View().GetPixel(x', y', z') == spec.GetPixel(x', y', z')
        {
          r.SetPixel(x, y, z, a.View().GetPixel(x, y, z) - b.View().GetPixel(x, y, z));
        }
      }
    }
    ExtEq(r.View(), spec);
  }

  // ---------------------------------------------------------------------
  // feature_normalize

  /** Every value v becomes (v - low) / (high - low). */
  function Rescaled(im: Img, low: real, high: real): (r: Img)
    requires im.Valid() && high != low
    ensures r.Valid() && r.w == im.w && r.h == im.h && r.c == im.c
  {
    Img(im.w, im.h, im.c, seq(|im.data|, j requires 0 <= j < |im.data| => (im.data[j] - low) / (high - low)))
  }

  /** feature_normalize's result. low and high are the running minimum and
      maximum of the scan, started at INT_MAX and INT_MIN; when they differ
      the image is rescaled by them, and otherwise it becomes all 0. */
  function FeatureNormalized(im: Img): (r: Img)
    requires im.Valid()
    ensures r.Valid() && r.w == im.w && r.h == im.h && r.c == im.c
  {
    var low, high := Lowest(im.data), Highest(im.data);
    if high - low != 0.0 then Rescaled(im, low, high) else Constant(im.w, im.h, im.c, 0.0)
  }

  lemma RescaledAt(im: Img, low: real, high: real, x: int, y: int, z: int)
    requires im.Valid() && high != low && im.Inside(x, y, z)
    ensures Rescaled(im, low, high).GetPixel(x, y, z) == (im.GetPixel(x, y, z) - low) / (high - low)
  {
    IndexInBuffer(x, y, z, im.w, im.h, im.c);
  }

  lemma UnitInterval(v: real, low: real, high: real)
    requires low <= v <= high && low < high
    ensures 0.0 <= (v - low) / (high - low) <= 1.0
    ensures (v - low) / (high - low) == 0.0 <==> v == low
    ensures (v - low) / (high - low) == 1.0 <==> v == high
  {
    var d := high - low;
    assert (v - low) / d <= 1.0 by {
      assert v - low <= d;
    }
  }

  /** Every value feature_normalize produces lies in [0, 1]. A value becomes
      0 exactly when it equals the running minimum and 1 exactly when it
      equals the running maximum; when the two agree every value becomes 0. */
  lemma FeatureNormalizedRange(im: Img)
    requires im.Valid()
    ensures var r := FeatureNormalized(im);
      forall j :: 0 <= j < |r.data| ==> 0.0 <= r.data[j] <= 1.0
    ensures var r, low, high := FeatureNormalized(im), Lowest(im.data), Highest(im.data);
      high != low ==> forall j :: 0 <= j < |r.data| ==>
        (r.data[j] == 0.0 <==> im.data[j] == low) && (r.data[j] == 1.0 <==> im.data[j] == high)
    ensures var r, low, high := FeatureNormalized(im), Lowest(im.data), Highest(im.data);
      high == low ==> forall j :: 0 <= j < |r.data| ==> r.data[j] == 0.0
  {
    var r, low, high := FeatureNormalized(im), Lowest(im.data), Highest(im.data);
    LowestBounds(im.data);
    HighestBounds(im.data);
    if high != low {
      forall j | 0 <= j < |r.data|
        ensures 0.0 <= r.data[j] <= 1.0
        ensures (r.data[j] == 0.0 <==> im.data[j] == low) && (r.data[j] == 1.0 <==> im.data[j] == high)
      {
        UnitInterval(im.data[j], low, high);
      }
    }
  }

  /** The values of a nonempty image all lie within the int range. */
  ghost predicate WithinIntRange(s: seq<real>)
  {
    |s| > 0 && forall j :: 0 <= j < |s| ==> IntMin <= s[j] <= IntMax
  }

  /** Within the int range the running minimum and maximum are attained. */
  lemma ExtremesAttained(s: seq<real>)
    requires WithinIntRange(s)
    ensures exists j :: 0 <= j < |s| && s[j] == Lowest(s)
    ensures exists j :: 0 <= j < |s| && s[j] == Highest(s)
  {
    LowestBounds(s);
    HighestBounds(s);
    if Lowest(s) == IntMax {
      assert s[0] == IntMax;
    }
    if Highest(s) == IntMin {
      assert s[0] == IntMin;
    }
  }

  /** A value that bounds s from below and occurs in it is its running
      minimum, and dually for the maximum. */
  lemma ExtremesAre(s: seq<real>, low: real, high: real)
    requires IntMin <= low && high <= IntMax
    requires forall j :: 0 <= j < |s| ==> low <= s[j] <= high
    requires exists j :: 0 <= j < |s| && s[j] == low
    requires exists j :: 0 <= j < |s| && s[j] == high
    ensures Lowest(s) == low && Highest(s) == high
  {
    LowestBounds(s);
    HighestBounds(s);
  }

  /** For a nonempty image within the int range whose values are not all
      equal, the minimum maps to 0 and the maximum to 1. */
  lemma FeatureNormalizedExtremes(im: Img)
    requires im.Valid() && WithinIntRange(im.data) && Lowest(im.data) != Highest(im.data)
    ensures exists j :: 0 <= j < |im.data| && FeatureNormalized(im).data[j] == 0.0
    ensures exists j :: 0 <= j < |im.data| && FeatureNormalized(im).data[j] == 1.0
  {
    FeatureNormalizedRange(im);
    ExtremesAttained(im.data);
    var i :| 0 <= i < |im.data| && im.data[i] == Lowest(im.data);
    var k :| 0 <= k < |im.data| && im.data[k] == Highest(im.data);
    assert FeatureNormalized(im).data[i] == 0.0;
    assert FeatureNormalized(im).data[k] == 1.0;
  }

  /** A nonempty image within the int range that holds one value everywhere
      normalises to all 0. */
  lemma FeatureNormalizedFlat(im: Img, v: real)
    requires im.Valid() && WithinIntRange(im.data)
    requires forall j :: 0 <= j < |im.data| ==> im.data[j] == v
    ensures FeatureNormalized(im) == Constant(im.w, im.h, im.c, 0.0)
  {
    assert im.data[0] == v;
    ExtremesAre(im.data, v, v);
  }

  /** Normalising twice is normalising once, within the int range. */
  lemma FeatureNormalizeIdempotent(im: Img)
    requires im.Valid() && WithinIntRange(im.data)
    ensures FeatureNormalized(FeatureNormalized(im)) == FeatureNormalized(im)
  {
    var r := FeatureNormalized(im);
    FeatureNormalizedRange(im);
    if Lowest(im.data) != Highest(im.data) {
      FeatureNormalizedExtremes(im);
      ExtremesAre(r.data, 0.0, 1.0);
      var rr := FeatureNormalized(r);
      assert forall j :: 0 <= j < |r.data| ==> rr.data[j] == (r.data[j] - 0.0) / (1.0 - 0.0);
      assert rr.data == r.data;
    } else {
      FeatureNormalizedFlat(r, 0.0);
    }
  }

  /** The first loop nest of feature_normalize: the running minimum and
      maximum in planar scan order. */
  method Extremes(im: Image) returns (low: real, high: real)
    requires im.Valid()
    ensures low == Lowest(im.data[..]) && high == Highest(im.data[..])
  {
    high, low := IntMin, IntMax;
    for z := 0 to im.c
      invariant 0 <= Index(0, 0, z, im.w, im.h) <= im.data.Length
      invariant low == Lowest(im.data[..Index(0, 0, z, im.w, im.h)])
      invariant high == Highest(im.data[..Index(0, 0, z, im.w, im.h)])
    {
      for y := 0 to im.h
        invariant 0 <= Index(0, y, z, im.w, im.h) <= im.data.Length
        invariant low == Lowest(im.data[..Index(0, y, z, im.w, im.h)])
        invariant high == Highest(im.data[..Index(0, y, z, im.w, im.h)])
      {
        for x := 0 to im.w
          invariant 0 <= Index(x, y, z, im.w, im.h) <= im.data.Length
          invariant low == Lowest(im.data[..Index(x, y, z, im.w, im.h)])
          invariant high == Highest(im.data[..Index(x, y, z, im.w, im.h)])
        {
          IndexInBuffer(x, y, z, im.w, im.h, im.c);
          PrefixExtend(im.data[..], Index(x, y, z, im.w, im.h));
          var value := im.View().GetPixel(x, y, z);
          low := Min(value, low);
          high := Max(value, high);
          ScanPrefix(x + 1, y, z, im.w, im.h, im.c);
        }
        ScanEnds(y, z, im.w, im.h);
        ScanPrefix(0, y + 1, z, im.w, im.h, im.c);
      }
      ScanEnds(im.h, z, im.w, im.h);
      ScanEnds(0, z, im.w, im.h);
      ScanPrefix(0, 0, z + 1, im.w, im.h, im.c);
    }
    assert im.data[..Index(0, 0, im.c, im.w, im.h)] == im.data[..];
  }

  /** The rescaling loop nest of feature_normalize. */
  method Rescale(im: Image, low: real, high: real)
    requires im.Valid() && high != low
    modifies im.data
    ensures im.View() == Rescaled(old(im.View()), low, high)
  {
    ghost var before := im.View();
    ghost var spec := Rescaled(before, low, high);
    for z := 0 to im.c
      invariant forall x', y', z' :: im.View().Inside(x', y', z') ==>
        im.View().GetPixel(x', y', z') == if z' < z then spec.GetPixel(x', y', z') else before.GetPixel(x', y', z')
    {
      for y := 0 to im.h
        invariant forall x', y', z' :: im.View().Inside(x', y', z') ==>
          im.View().GetPixel(x', y', z') ==
            if z' < z || (z' == z && y' < y) then spec.GetPixel(x', y', z') else before.GetPixel(x', y', z')
      {
        for x := 0 to im.w
          invariant forall x', y', z' :: im.View().Inside(x', y', z') ==>
            im.View().GetPixel(x', y', z') ==
              if z' < z || (z' == z && (y' < y || (y' == y && x' < x))) then spec.GetPixel(x', y', z')
              else before.GetPixel(x', y', z')
        {
          RescaledAt(before, low, high, x, y, z);
          im.SetPixel(x, y, z, (im.View().GetPixel(x, y, z) - low) / (high - low));
        }
      }
    }
    ExtEq(im.View(), spec);
  }

  /** The zeroing loop nest of feature_normalize. */
  method Zero(im: Image)
    requires im.Valid()
    modifies im.data
    ensures im.View() == Constant(im.w, im.h, im.c, 0.0)
  {
    for z := 0 to im.c
      invariant forall x', y', z' :: im.View().Inside(x', y', z') && z' < z ==> im.View().GetPixel(x', y', z') == 0.0
    {
      for y := 0 to im.h
        invariant forall x', y', z' :: im.View().Inside(x', y', z') && (z' < z || (z' == z && y' < y)) ==>
          im.View().GetPixel(x', y', z') == 0.0
      {
        for x := 0 to im.w
          invariant forall x', y', z' ::
            im.View().Inside(x', y', z') && (z' < z || (z' == z && (y' < y || (y' == y && x' < x)))) ==>
            im.View().GetPixel(x', y', z') == 0.0
        {
          im.SetPixel(x, y, z, 0.0);
        }
      }
    }
    ExtEq(im.View(), Constant(im.w, im.h, im.c, 0.0));
  }

  /** feature_normalize: rescales the image in place so that its values span
      [0, 1], or zeroes it when the scan found no spread. */
  method FeatureNormalize(im: Image)
    requires im.Valid()
    modifies im.data
    ensures im.View() == FeatureNormalized(old(im.View()))
  {
    var low, high := Extremes(im);
    if high - low != 0.0 {
      Rescale(im, low, high);
    } else {
      Zero(im);
    }
  }
}
