/** The raster layer of src/hw0/process_image.c: a planar multi-channel image
    buffer, its addressing, clamped reads and bounds-checked writes.

    Pixel values are mathematical reals, not C floats. */
module Raster {

  /** a * b by repeated addition. Addresses are built from Mul rather than *
      so that the solver sees products of unknowns as plain terms; the
      lemma MulIsProduct connects the two where arithmetic is needed. */
  function Mul(a: int, b: int): int
    decreases if a < 0 then -a else a
  {
    if a == 0 then 0 else if a > 0 then Mul(a - 1, b) + b else Mul(a + 1, b) - b
  }

  /** Mul is multiplication. */
  lemma {:induction false} MulIsProduct(a: int, b: int)
    ensures Mul(a, b) == a * b
    decreases if a < 0 then -a else a
  {
    if a > 0 {
      MulIsProduct(a - 1, b);
    } else if a < 0 {
      MulIsProduct(a + 1, b);
    }
  }

  /** The number of values in the buffer of a w-by-h image with c channels. */
  function Size(w: nat, h: nat, c: nat): nat
  {
    MulNonnegative(w, h);
    MulNonnegative(c, Mul(w, h));
    Mul(c, Mul(w, h))
  }

  /** The product of two naturals is a natural. */
  lemma {:induction false} MulNonnegative(a: nat, b: nat)
    ensures Mul(a, b) >= 0
  {
    if a > 0 {
      MulNonnegative(a - 1, b);
    }
  }

  /** The buffer size is the product of the three extents. */
  lemma SizeIsProduct(w: nat, h: nat, c: nat)
    ensures Mul(c, Mul(w, h)) == w * h * c
    ensures w * h * c > 0 ==> w >= 1 && h >= 1 && c >= 1
  {
    MulIsProduct(w, h);
    MulIsProduct(c, Mul(w, h));
    if w == 0 || h == 0 || c == 0 {
      assert w * h * c == 0;
    }
  }

  /** Planar address of pixel (x, y) in channel ch of a w-by-h image. */
  function Index(x: int, y: int, ch: int, w: int, h: int): int
  {
    x + Mul(y, w) + Mul(ch, Mul(w, h))
  }

  /** The per-axis rule of get_pixel: below 0 reads 0, at or past n reads n - 1. */
  function Clamp(v: int, n: int): (r: int)
    requires n >= 1
    ensures 0 <= r < n
    ensures 0 <= v < n ==> r == v
  {
    if v < 0 then 0 else if v >= n then n - 1 else v
  }

  /** C's integer division, which truncates toward zero. */
  function CDiv(a: int, b: int): (q: int)
    requires b > 0
    ensures a >= 0 ==> q >= 0 && q * b <= a < q * b + b
    ensures a < 0 ==> q <= 0 && q * b - b < a <= q * b
  {
    if a >= 0 then a / b else -((-a) / b)
  }

  // ---------------------------------------------------------------------
  // Index arithmetic

  lemma MulMono(a: int, b: int, m: int)
    requires a <= b && m >= 0
    ensures a * m <= b * m && m * a <= m * b
  {
  }

  lemma DivModUnique(a: int, m: int, q: int, r: int)
    requires m > 0 && 0 <= r < m && a == q * m + r
    ensures a / m == q && a % m == r
  {
    var q', r' := a / m, a % m;
    assert a == q' * m + r';
    if q' < q {
      MulMono(q' + 1, q, m);
      assert false;
    } else if q' > q {
      MulMono(q + 1, q', m);
      assert false;
    }
  }

  /** The offset of (x, y) inside one channel plane lies in [0, w * h). */
  lemma PlaneOffset(x: int, y: int, w: int, h: int)
    requires 0 <= x < w && 0 <= y < h
    ensures 0 <= x + Mul(y, w) < Mul(w, h)
  {
    MulIsProduct(y, w);
    MulIsProduct(w, h);
    MulMono(y + 1, h, w);
    assert (y + 1) * w == y * w + w;
    assert h * w == w * h;
  }

  /** An offset inside one channel plane splits into a column i % w and a
      row i / w, both in range. */
  lemma PlaneSplit(i: int, w: int, h: int)
    requires w >= 1 && 0 <= i < Mul(w, h)
    ensures 0 <= i % w < w && 0 <= i / w < h
    ensures i % w + Mul(i / w, w) == i
  {
    MulIsProduct(w, h);
    MulIsProduct(i / w, w);
    if i / w >= h {
      MulMono(h, i / w, w);
      assert false;
    }
  }

  /** Every in-range coordinate triple addresses a cell of the buffer. */
  lemma IndexInBuffer(x: int, y: int, ch: int, w: nat, h: nat, c: nat)
    requires 0 <= x < w && 0 <= y < h && 0 <= ch < c
    ensures 0 <= Index(x, y, ch, w, h) < Size(w, h, c)
  {
    PlaneOffset(x, y, w, h);
    var m := Mul(w, h);
    MulIsProduct(ch, m);
    MulIsProduct(c, m);
    MulMono(ch + 1, c, m);
    assert (ch + 1) * m == ch * m + m;
  }

  /** Channel of flat index j. */
  function ChOf(j: int, w: int, h: int): int
    requires w >= 1 && h >= 1
  {
    MulIsProduct(w, h);
    j / Mul(w, h)
  }

  /** Row of flat index j. */
  function YOf(j: int, w: int, h: int): int
    requires w >= 1 && h >= 1
  {
    MulIsProduct(w, h);
    (j % Mul(w, h)) / w
  }

  /** Column of flat index j. */
  function XOf(j: int, w: int, h: int): int
    requires w >= 1 && h >= 1
  {
    MulIsProduct(w, h);
    (j % Mul(w, h)) % w
  }

  /** Reading the coordinates back from an address gives the coordinates. */
  lemma {:induction false} IndexDecompose(x: int, y: int, ch: int, w: int, h: int)
    requires 0 <= x < w && 0 <= y < h && 0 <= ch
    ensures XOf(Index(x, y, ch, w, h), w, h) == x
    ensures YOf(Index(x, y, ch, w, h), w, h) == y
    ensures ChOf(Index(x, y, ch, w, h), w, h) == ch
  {
    PlaneOffset(x, y, w, h);
    var m := Mul(w, h);
    MulIsProduct(ch, m);
    MulIsProduct(y, w);
    var j := Index(x, y, ch, w, h);
    assert j == ch * m + (x + y * w);
    DivModUnique(j, m, ch, x + y * w);
    DivModUnique(x + y * w, w, y, x);
  }

  /** The quotient of an address below m * c by m is a channel below c. */
  lemma DivBelow(j: int, m: int, c: int)
    requires m >= 1 && 0 <= j < m * c
    ensures 0 <= j / m < c && j == (j / m) * m + j % m && 0 <= j % m < m
  {
    var q := j / m;
    if q >= c {
      MulMono(c, q, m);
      assert false;
    }
  }

  /** Every address of the buffer is the address of its own coordinates. */
  lemma {:induction false} IndexRecompose(j: int, w: nat, h: nat, c: nat)
    requires 0 <= j < Size(w, h, c)
    ensures w >= 1 && h >= 1
    ensures 0 <= XOf(j, w, h) < w && 0 <= YOf(j, w, h) < h && 0 <= ChOf(j, w, h) < c
    ensures Index(XOf(j, w, h), YOf(j, w, h), ChOf(j, w, h), w, h) == j
  {
    SizeIsProduct(w, h, c);
    var m := Mul(w, h);
    MulIsProduct(w, h);
    MulIsProduct(c, m);
    MulMono(1, w, h);
    DivBelow(j, m, c);
    var ch, rest := j / m, j % m;
    DivBelow(rest, w, h);
    var y, x := rest / w, rest % w;
    MulIsProduct(ch, m);
    MulIsProduct(y, w);
    assert rest == y * w + x;
    assert j == x + y * w + ch * m;
  }

  /** Where a scan in planar order moves to the next row and the next plane. */
  lemma ScanEnds(y: nat, ch: nat, w: int, h: int)
    ensures Index(w, y, ch, w, h) == Index(0, y + 1, ch, w, h)
    ensures Index(0, h, ch, w, h) == Index(0, 0, ch + 1, w, h)
  {
    assert Mul(y + 1, w) == Mul(y, w) + w;
    assert Mul(ch + 1, Mul(w, h)) == Mul(ch, Mul(w, h)) + Mul(w, h);
    MulIsProduct(h, w);
    MulIsProduct(w, h);
  }

  /** The part of one plane that a row-by-row scan has covered when it
      reaches (x, y). */
  lemma PlanePrefix(x: int, y: int, w: int, h: int)
    requires 0 <= x <= w && 0 <= y <= h && (y == h ==> x == 0)
    ensures 0 <= x + Mul(y, w) <= Mul(w, h)
  {
    MulIsProduct(y, w);
    MulIsProduct(w, h);
    MulMono(0, y, w);
    if y < h {
      MulMono(y + 1, h, w);
      assert (y + 1) * w == y * w + w;
    }
  }

  /** A scan in planar order that has reached (x, y, ch) has covered a prefix
      of the buffer. */
  lemma ScanPrefix(x: int, y: int, ch: int, w: nat, h: nat, c: nat)
    requires 0 <= x <= w && 0 <= y <= h && 0 <= ch <= c
    requires y == h ==> x == 0
    requires ch == c ==> x == 0 && y == 0
    ensures 0 <= Index(x, y, ch, w, h) <= Size(w, h, c)
  {
    PlanePrefix(x, y, w, h);
    var m := Mul(w, h);
    MulIsProduct(ch, m);
    MulIsProduct(c, m);
    MulMono(0, ch, m);
    if ch < c {
      MulMono(ch + 1, c, m);
      assert (ch + 1) * m == ch * m + m;
    }
  }

  /** Distinct in-range coordinates address distinct cells. */
  lemma IndexInjective(x: int, y: int, ch: int, x': int, y': int, ch': int, w: int, h: int)
    requires 0 <= x < w && 0 <= y < h && 0 <= ch
    requires 0 <= x' < w && 0 <= y' < h && 0 <= ch'
    requires Index(x, y, ch, w, h) == Index(x', y', ch', w, h)
    ensures x == x' && y == y' && ch == ch'
  {
    IndexDecompose(x, y, ch, w, h);
    IndexDecompose(x', y', ch', w, h);
  }

  // ---------------------------------------------------------------------
  // Image values

  /** An image as a value: width, height, channel count and planar buffer. */
  datatype Img = Img(w: nat, h: nat, c: nat, data: seq<real>)
  {
    /** The buffer holds exactly w * h * c values. */
    predicate Valid()
    {
      |data| == Size(w, h, c)
    }

    /** (x, y, ch) names a pixel of the image. */
    predicate Inside(x: int, y: int, ch: int)
    {
      0 <= x < w && 0 <= y < h && 0 <= ch < c
    }

    /** get_pixel is defined: no axis is empty, so clamping lands on a pixel. */
    predicate Readable()
    {
      Valid() && w >= 1 && h >= 1 && c >= 1
    }

    /** get_pixel: each coordinate is clamped to its axis independently. */
    function GetPixel(x: int, y: int, ch: int): (v: real)
      requires Readable()
      ensures Inside(x, y, ch) ==>
        0 <= Index(x, y, ch, w, h) < |data| && v == data[Index(x, y, ch, w, h)]
    {
      var cx, cy, cc := Clamp(x, w), Clamp(y, h), Clamp(ch, c);
      IndexInBuffer(cx, cy, cc, w, h, c);
      data[Index(cx, cy, cc, w, h)]
    }
  }

  /** The image of the given shape whose pixel (x, y, ch) is f(x, y, ch). */
  function Tabulate(w: nat, h: nat, c: nat, f: (int, int, int) --> real): (r: Img)
    requires forall x, y, ch :: 0 <= x < w && 0 <= y < h && 0 <= ch < c ==> f.requires(x, y, ch)
    ensures r.Valid() && r.w == w && r.h == h && r.c == c
    ensures forall x, y, ch :: r.Inside(x, y, ch) ==> r.GetPixel(x, y, ch) == f(x, y, ch)
  {
    var r := Img(w, h, c, seq(Size(w, h, c), j requires 0 <= j < Size(w, h, c) =>
      IndexRecompose(j, w, h, c);
      f(XOf(j, w, h), YOf(j, w, h), ChOf(j, w, h))));
    assert forall x, y, ch :: r.Inside(x, y, ch) ==> r.GetPixel(x, y, ch) == f(x, y, ch) by {
      forall x, y, ch | r.Inside(x, y, ch)
        ensures r.GetPixel(x, y, ch) == f(x, y, ch)
      {
        IndexInBuffer(x, y, ch, w, h, c);
        IndexDecompose(x, y, ch, w, h);
      }
    }
    r
  }

  /** The w-by-h image with c channels holding v everywhere. */
  function Constant(w: nat, h: nat, c: nat, v: real): (r: Img)
    ensures r.Valid() && r.w == w && r.h == h && r.c == c
    ensures forall x, y, ch :: r.Inside(x, y, ch) ==> r.GetPixel(x, y, ch) == v
  {
    Img(w, h, c, seq(Size(w, h, c), _ => v))
  }

  /** Two images of one shape that agree on every pixel are equal. */
  lemma ExtEq(a: Img, b: Img)
    requires a.Valid() && b.Valid() && a.w == b.w && a.h == b.h && a.c == b.c
    requires forall x, y, ch :: a.Inside(x, y, ch) ==> a.GetPixel(x, y, ch) == b.GetPixel(x, y, ch)
    ensures a == b
  {
    forall j | 0 <= j < |a.data|
      ensures a.data[j] == b.data[j]
    {
      IndexRecompose(j, a.w, a.h, a.c);
      var x, y, ch := XOf(j, a.w, a.h), YOf(j, a.w, a.h), ChOf(j, a.w, a.h);
      assert a.GetPixel(x, y, ch) == b.GetPixel(x, y, ch);
    }
  }

  /** Clamp law: every read is the read of an in-range pixel, and that pixel's
      address lies inside the buffer. */
  lemma GetPixelClamped(im: Img, x: int, y: int, ch: int)
    requires im.Readable()
    ensures im.Inside(Clamp(x, im.w), Clamp(y, im.h), Clamp(ch, im.c))
    ensures 0 <= Index(Clamp(x, im.w), Clamp(y, im.h), Clamp(ch, im.c), im.w, im.h) < |im.data|
    ensures im.GetPixel(x, y, ch) == im.GetPixel(Clamp(x, im.w), Clamp(y, im.h), Clamp(ch, im.c))
    ensures x < 0 ==> im.GetPixel(x, y, ch) == im.GetPixel(0, y, ch)
    ensures x >= im.w ==> im.GetPixel(x, y, ch) == im.GetPixel(im.w - 1, y, ch)
    ensures y < 0 ==> im.GetPixel(x, y, ch) == im.GetPixel(x, 0, ch)
    ensures y >= im.h ==> im.GetPixel(x, y, ch) == im.GetPixel(x, im.h - 1, ch)
    ensures ch < 0 ==> im.GetPixel(x, y, ch) == im.GetPixel(x, y, 0)
    ensures ch >= im.c ==> im.GetPixel(x, y, ch) == im.GetPixel(x, y, im.c - 1)
  {
    IndexInBuffer(Clamp(x, im.w), Clamp(y, im.h), Clamp(ch, im.c), im.w, im.h, im.c);
  }

  // ---------------------------------------------------------------------
  // Images held in memory

  /** An image in memory. As in the C struct, the shape and the buffer pointer
      never change; only the buffer's contents do. */
  class Image {
    const w: nat
    const h: nat
    const c: nat
    const data: array<real>

    /** The buffer holds exactly w * h * c values. */
    predicate Valid()
    {
      data.Length == Size(w, h, c)
    }

    /** make_image: a fresh buffer of the given shape. Nothing is promised
        about its contents. */
    constructor (w: nat, h: nat, c: nat)
      ensures this.w == w && this.h == h && this.c == c
      ensures Valid() && fresh(data)
    {
      this.w, this.h, this.c := w, h, c;
      data := new real[Size(w, h, c)];
    }

    /** The image's current value. */
    function View(): (v: Img)
      reads data
      ensures v.w == w && v.h == h && v.c == c && v.data == data[..]
      ensures Valid() ==> v.Valid()
    {
      Img(w, h, c, data[..])
    }

    /** set_pixel: writes v at (x, y, ch) when all three coordinates are in
        range, and otherwise changes nothing. */
    method SetPixel(x: int, y: int, ch: int, v: real)
      requires Valid()
      modifies data
      ensures View().Inside(x, y, ch) ==>
        0 <= Index(x, y, ch, w, h) < data.Length &&
        data[..] == old(data[..])[Index(x, y, ch, w, h) := v]
      ensures !View().Inside(x, y, ch) ==> data[..] == old(data[..])
      ensures forall x', y', ch' :: View().Inside(x', y', ch') ==>
        View().GetPixel(x', y', ch') ==
          if x' == x && y' == y && ch' == ch then v else old(View()).GetPixel(x', y', ch')
    {
      if 0 <= x < w && 0 <= y < h && 0 <= ch < c {
        IndexInBuffer(x, y, ch, w, h, c);
        data[Index(x, y, ch, w, h)] := v;
        forall x', y', ch' | View().Inside(x', y', ch') && (x' != x || y' != y || ch' != ch)
          ensures View().GetPixel(x', y', ch') == old(View()).GetPixel(x', y', ch')
        {
          IndexInBuffer(x', y', ch', w, h, c);
          if Index(x', y', ch', w, h) == Index(x, y, ch, w, h) {
            IndexInjective(x, y, ch, x', y', ch', w, h);
          }
        }
      }
    }
  }
}
