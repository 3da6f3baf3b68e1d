/** Whole-image operations of src/hw0/process_image.c: copying, grayscale
    conversion, per-channel shift and scale, clamping to [0, 1], and the
    three-way min/max helpers. */
module Process {
  import opened Raster

  // ---------------------------------------------------------------------
  // Specifications

  /** An image whose channel ch has been offset by v. */
  function Shifted(im: Img, ch: int, v: real): (r: Img)
    requires im.Valid()
  {
    Tabulate(im.w, im.h, im.c, (x, y, z) requires im.Readable() =>
      if z == ch then im.GetPixel(x, y, z) + v else im.GetPixel(x, y, z))
  }

  /** An image whose channel ch has been multiplied by v. */
  function Scaled(im: Img, ch: int, v: real): (r: Img)
    requires im.Valid()
  {
    Tabulate(im.w, im.h, im.c, (x, y, z) requires im.Readable() =>
      if z == ch then im.GetPixel(x, y, z) * v else im.GetPixel(x, y, z))
  }

  /** The rule clamp_image applies to one value. */
  function Clamp01(v: real): real
  {
    if v < 0.0 then 0.0 else if v > 1.0 then 1.0 else v
  }

  /** An image with every value clamped into [0, 1]. */
  function Clamped(im: Img): (r: Img)
    requires im.Valid()
  {
    Tabulate(im.w, im.h, im.c, (x, y, z) requires im.Readable() => Clamp01(im.GetPixel(x, y, z)))
  }

  /** The luma weighting of rgb_to_grayscale. */
  function Luma(r: real, g: real, b: real): real
  {
    0.299 * r + 0.587 * g + 0.114 * b
  }

  /** The one-channel grayscale version of a three-channel image. */
  function Grayscale(im: Img): (r: Img)
    requires im.Valid() && im.c == 3
  {
    Tabulate(im.w, im.h, 1, (x, y, z) requires im.Readable() =>
      Luma(im.GetPixel(x, y, 0), im.GetPixel(x, y, 1), im.GetPixel(x, y, 2)))
  }

  // ---------------------------------------------------------------------
  // Properties of the specifications

  /** shift_image changes exactly channel ch, by v; a channel outside the
      image changes nothing. */
  lemma ShiftedAt(im: Img, ch: int, v: real, x: int, y: int, z: int)
    requires im.Valid() && im.Inside(x, y, z)
    ensures Shifted(im, ch, v).Valid() && Shifted(im, ch, v).w == im.w
    ensures Shifted(im, ch, v).h == im.h && Shifted(im, ch, v).c == im.c
    ensures Shifted(im, ch, v).GetPixel(x, y, z) ==
      if z == ch then im.GetPixel(x, y, z) + v else im.GetPixel(x, y, z)
  {
  }

  /** Shifting a channel that the image does not have leaves it unchanged. */
  lemma ShiftedOutside(im: Img, ch: int, v: real)
    requires im.Valid() && (ch < 0 || ch >= im.c)
    ensures Shifted(im, ch, v) == im
  {
    ExtEq(Shifted(im, ch, v), im);
  }

  /** Shifting by v and then by -v restores the image. */
  lemma ShiftedInverse(im: Img, ch: int, v: real)
    requires im.Valid()
    ensures Shifted(Shifted(im, ch, v), ch, -v) == im
  {
    ExtEq(Shifted(Shifted(im, ch, v), ch, -v), im);
  }

  /** Scaling a channel that the image does not have leaves it unchanged. */
  lemma ScaledOutside(im: Img, ch: int, v: real)
    requires im.Valid() && (ch < 0 || ch >= im.c)
    ensures Scaled(im, ch, v) == im
  {
    ExtEq(Scaled(im, ch, v), im);
  }

  lemma MulInverseCancel(a: real, b: real, v: real, u: real)
    requires b == a * v && v * u == 1.0
    ensures b * u == a
  {
    assert b * u == a * (v * u);
  }

  lemma ScaledInverseAt(im: Img, ch: int, v: real, u: real, x: int, y: int, z: int)
    requires im.Valid() && v * u == 1.0 && im.Inside(x, y, z)
    ensures Scaled(Scaled(im, ch, v), ch, u).GetPixel(x, y, z) == im.GetPixel(x, y, z)
  {
    var once := Scaled(im, ch, v);
    var a, b := im.GetPixel(x, y, z), once.GetPixel(x, y, z);
    if z == ch {
      MulInverseCancel(a, b, v, u);
    }
  }

  /** Scaling by v and then by its inverse u restores the image. */
  lemma ScaledInverse(im: Img, ch: int, v: real, u: real)
    requires im.Valid() && v * u == 1.0
    ensures Scaled(Scaled(im, ch, v), ch, u) == im
  {
    forall x, y, z | im.Inside(x, y, z)
      ensures Scaled(Scaled(im, ch, v), ch, u).GetPixel(x, y, z) == im.GetPixel(x, y, z)
    {
      ScaledInverseAt(im, ch, v, u, x, y, z);
    }
    ExtEq(Scaled(Scaled(im, ch, v), ch, u), im);
  }

  /** After clamp_image every value lies in [0, 1], and values that already
      did are untouched. */
  lemma ClampedAt(im: Img, x: int, y: int, z: int)
    requires im.Valid() && im.Inside(x, y, z)
    ensures Clamped(im).Valid() && Clamped(im).w == im.w && Clamped(im).h == im.h && Clamped(im).c == im.c
    ensures 0.0 <= Clamped(im).GetPixel(x, y, z) <= 1.0
    ensures 0.0 <= im.GetPixel(x, y, z) <= 1.0 ==> Clamped(im).GetPixel(x, y, z) == im.GetPixel(x, y, z)
    ensures im.GetPixel(x, y, z) < 0.0 ==> Clamped(im).GetPixel(x, y, z) == 0.0
    ensures im.GetPixel(x, y, z) > 1.0 ==> Clamped(im).GetPixel(x, y, z) == 1.0
  {
  }

  /** clamp_image is idempotent. */
  lemma ClampedIdempotent(im: Img)
    requires im.Valid()
    ensures Clamped(Clamped(im)) == Clamped(im)
  {
    ExtEq(Clamped(Clamped(im)), Clamped(im));
  }

  /** The luma weights sum to one, so a gray pixel keeps its level. */
  lemma GrayscaleOfGray(im: Img, x: int, y: int)
    requires im.Valid() && im.c == 3 && 0 <= x < im.w && 0 <= y < im.h
    requires im.GetPixel(x, y, 0) == im.GetPixel(x, y, 1) == im.GetPixel(x, y, 2)
    ensures Grayscale(im).Valid() && Grayscale(im).w == im.w && Grayscale(im).h == im.h && Grayscale(im).c == 1
    ensures Grayscale(im).GetPixel(x, y, 0) == im.GetPixel(x, y, 0)
  {
  }

  // ---------------------------------------------------------------------
  // Operations

  /** copy_image: a fresh image equal to im. */
  method CopyImage(im: Image) returns (copy: Image)
    requires im.Valid()
    ensures copy.Valid() && fresh(copy) && fresh(copy.data)
    ensures copy.View() == im.View()
  {
    copy := new Image(im.w, im.h, im.c);
    for z := 0 to im.c
      invariant forall x', y', z' :: copy.View().Inside(x', y', z') && z' < z ==>
        copy.View().GetPixel(x', y', z') == im.View().GetPixel(x', y', z')
    {
      for y := 0 to im.h
        invariant forall x', y', z' :: copy.View().Inside(x', y', z') && (z' < z || (z' == z && y' < y)) ==>
          copy.View().GetPixel(x', y', z') == im.View().GetPixel(x', y', z')
      {
        for x := 0 to im.w
          invariant forall x', y', z' ::
            copy.View().Inside(x', y', z') && (z' < z || (z' == z && (y' < y || (y' == y && x' < x)))) ==>
            copy.View().GetPixel(x', y', z') == im.View().GetPixel(x', y', z')
        {
          copy.SetPixel(x, y, z, im.View().GetPixel(x, y, z));
        }
      }
    }
    ExtEq(copy.View(), im.View());
  }

  /** rgb_to_grayscale: a fresh one-channel image of the luma of im. */
  method RgbToGrayscale(im: Image) returns (gray: Image)
    requires im.Valid() && im.c == 3
    ensures gray.Valid() && fresh(gray) && fresh(gray.data)
    ensures gray.View() == Grayscale(im.View())
  {
    gray := new Image(im.w, im.h, 1);
    ghost var spec := Grayscale(im.View());
    for y := 0 to im.h
      invariant forall x', y', z' :: gray.View().Inside(x', y', z') && y' < y ==>
        gray.View().GetPixel(x', y', z') == spec.GetPixel(x', y', z')
    {
      for x := 0 to im.w
        invariant forall x', y', z' :: gray.View().Inside(x', y', z') && (y' < y || (y' == y && x' < x)) ==>
          gray.View().GetPixel(x', y', z') == spec.GetPixel(x', y', z')
      {
        var rgb: seq<real> := [];
        for ch := 0 to im.c
          invariant |rgb| == ch
          invariant forall k :: 0 <= k < ch ==> rgb[k] == im.View().GetPixel(x, y, k)
        {
          rgb := rgb + [im.View().GetPixel(x, y, ch)];
        }
        var v := 0.299 * rgb[0] + 0.587 * rgb[1] + 0.114 * rgb[2];
        gray.SetPixel(x, y, 0, v);
      }
    }
    ExtEq(gray.View(), spec);
  }

  /** shift_image: adds v to every pixel of channel ch, in place. */
  method ShiftImage(im: Image, ch: int, v: real)
    requires im.Valid() && (im.w == 0 || im.h == 0 || im.c >= 1)
    modifies im.data
    ensures im.View() == Shifted(old(im.View()), ch, v)
  {
    ghost var before := im.View();
    for y := 0 to im.h
      invariant forall x', y', z' :: im.View().Inside(x', y', z') ==>
        im.View().GetPixel(x', y', z') ==
          if z' == ch && y' < y then before.GetPixel(x', y', z') + v else before.GetPixel(x', y', z')
    {
      for x := 0 to im.w
        invariant forall x', y', z' :: im.View().Inside(x', y', z') ==>
          im.View().GetPixel(x', y', z') ==
            if z' == ch && (y' < y || (y' == y && x' < x)) then before.GetPixel(x', y', z') + v
            else before.GetPixel(x', y', z')
      {
        im.SetPixel(x, y, ch, im.View().GetPixel(x, y, ch) + v);
      }
    }
    ExtEq(im.View(), Shifted(before, ch, v));
  }

  /** scale_image: multiplies every pixel of channel ch by v, in place. */
  method ScaleImage(im: Image, ch: int, v: real)
    requires im.Valid() && (im.w == 0 || im.h == 0 || im.c >= 1)
    modifies im.data
    ensures im.View() == Scaled(old(im.View()), ch, v)
  {
    ghost var before := im.View();
    ghost var spec := Scaled(before, ch, v);
    for y := 0 to im.h
      invariant forall x', y', z' :: im.View().Inside(x', y', z') ==>
        im.View().GetPixel(x', y', z') ==
          if z' == ch && y' < y then spec.GetPixel(x', y', z') else before.GetPixel(x', y', z')
    {
      for x := 0 to im.w
        invariant forall x', y', z' :: im.View().Inside(x', y', z') ==>
          im.View().GetPixel(x', y', z') ==
            if z' == ch && (y' < y || (y' == y && x' < x)) then spec.GetPixel(x', y', z')
            else before.GetPixel(x', y', z')
      {
        var value := im.View().GetPixel(x, y, ch);
        ghost var scaled := value * v;
        assert im.View().Inside(x, y, ch) ==> scaled == spec.GetPixel(x, y, ch);
        im.SetPixel(x, y, ch, value * v);
      }
    }
    ExtEq(im.View(), spec);
  }

  /** clamp_image: clamps every value into [0, 1], in place. */
  method ClampImage(im: Image)
    requires im.Valid()
    modifies im.data
    ensures im.View() == Clamped(old(im.View()))
  {
    ghost var before := im.View();
    ghost var spec := Clamped(before);
    for z := 0 to im.c
      invariant forall x', y', z' :: im.View().Inside(x', y', z') ==>
        im.View().GetPixel(x', y', z') == if z' < z then spec.GetPixel(x', y', z') else before.GetPixel(x', y', z')
    {
      for y := 0 to im.h
        invariant forall x', y', z' :: im.View().Inside(x', y', z') ==>
          im.View().GetPixel(x', y', z') ==
            if z' < z || (z' == z && y' < y) then spec.GetPixel(x', y', z') else before.GetPixel(x', y', z')
      {
        for x := 0 to im.w
          invariant forall x', y', z' :: im.View().Inside(x', y', z') ==>
            im.View().GetPixel(x', y', z') ==
              if z' < z || (z' == z && (y' < y || (y' == y && x' < x))) then spec.GetPixel(x', y', z')
              else before.GetPixel(x', y', z')
        {
          var value := im.View().GetPixel(x, y, z);
          assert spec.GetPixel(x, y, z) == Clamp01(value);
          if value < 0.0 {
            im.SetPixel(x, y, z, 0.0);
          } else if value > 1.0 {
            im.SetPixel(x, y, z, 1.0);
          }
        }
      }
    }
    ExtEq(im.View(), spec);
  }

  /** three_way_max: one of its arguments, and at least each of them. */
  function ThreeWayMax(a: real, b: real, c: real): (m: real)
    ensures m == a || m == b || m == c
    ensures m >= a && m >= b && m >= c
  {
    if a > b then (if a > c then a else c) else (if b > c then b else c)
  }

  /** three_way_min: one of its arguments, and at most each of them. */
  function ThreeWayMin(a: real, b: real, c: real): (m: real)
    ensures m == a || m == b || m == c
    ensures m <= a && m <= b && m <= c
  {
    if a < b then (if a < c then a else c) else (if b < c then b else c)
  }

  /** The two helpers mirror each other under negation. */
  lemma ThreeWayMinIsNegatedMax(a: real, b: real, c: real)
    ensures ThreeWayMin(a, b, c) == -ThreeWayMax(-a, -b, -c)
  {
  }
}
