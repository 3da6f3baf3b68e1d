/** The Harris corner detector of src/hw3/harris_image.c: patch descriptors,
    corner marks, the structure matrix with separable smoothing, the
    cornerness response, non-maximum suppression and the collection of
    corner indices. */
module Harris {
  import opened Raster
  import opened Filter
  import Process

  // ---------------------------------------------------------------------
  // Descriptors

  datatype Point = Point(x: int, y: int)

  /** A feature: its position, its length n and its values. */
  datatype Descriptor = Descriptor(p: Point, n: int, data: seq<real>)

  /** describe_index can read both the clamped neighbours and the centre
      value of every channel at buffer offset i. */
  predicate Describable(im: Img, i: int)
  {
    im.Readable() && 0 <= i < Mul(im.w, im.h)
  }

  /** Entry k of the descriptor at offset i: channel k / 25, column offset
      dx = k % 25 / 5 - 2 and row offset dy = k % 5 - 2, holding the centre
      value minus the clamped neighbour at (dx, dy). */
  function Entry(im: Img, i: int, k: int): real
    requires Describable(im, i)
  {
    var x, y := i % im.w, i / im.w;
    var ch, dx, dy := k / 25, k % 25 / 5 - 2, k % 5 - 2;
    im.GetPixel(x, y, ch) - im.GetPixel(x + dx, y + dy, ch)
  }

  /** describe_index's result: position (i % w, i / w) and 25 entries per
      channel. */
  function Described(im: Img, i: int): (d: Descriptor)
    requires Describable(im, i)
    ensures d.p == Point(i % im.w, i / im.w) && d.n == 25 * im.c && |d.data| == d.n
  {
    Descriptor(Point(i % im.w, i / im.w), 25 * im.c, seq(25 * im.c, k => Entry(im, i, k)))
  }

  /** The entry for channel ch and offsets (dx, dy) sits at
      25 * ch + 5 * (dx + 2) + (dy + 2): channel outermost, then dx, then dy. */
  lemma EntryAt(im: Img, i: int, ch: int, dx: int, dy: int)
    requires Describable(im, i) && 0 <= ch < im.c && -2 <= dx <= 2 && -2 <= dy <= 2
    ensures 0 <= 25 * ch + 5 * (dx + 2) + (dy + 2) < 25 * im.c
    ensures Entry(im, i, 25 * ch + 5 * (dx + 2) + (dy + 2)) ==
      im.GetPixel(i % im.w, i / im.w, ch) - im.GetPixel(i % im.w + dx, i / im.w + dy, ch)
  {
    var k := 25 * ch + 5 * (dx + 2) + (dy + 2);
    DivModUnique(k, 25, ch, 5 * (dx + 2) + (dy + 2));
    DivModUnique(5 * (dx + 2) + (dy + 2), 5, dx + 2, dy + 2);
    DivModUnique(k, 5, 5 * ch + (dx + 2), dy + 2);
  }

  /** The centre value describe_index reads straight from the buffer is the
      pixel at (i % w, i / w). */
  lemma CentreIsPixel(im: Img, i: int, ch: int)
    requires Describable(im, i) && 0 <= ch < im.c
    ensures 0 <= Mul(ch, Mul(im.w, im.h)) + i < |im.data|
    ensures im.data[Mul(ch, Mul(im.w, im.h)) + i] == im.GetPixel(i % im.w, i / im.w, ch)
  {
    PlaneSplit(i, im.w, im.h);
    IndexInBuffer(i % im.w, i / im.w, ch, im.w, im.h, im.c);
  }

  /** The middle entry of every channel compares the centre with itself. */
  lemma DescriptorCentreZero(im: Img, i: int, ch: int)
    requires Describable(im, i) && 0 <= ch < im.c
    ensures Described(im, i).data[25 * ch + 12] == 0.0
  {
    EntryAt(im, i, ch, 0, 0);
  }

  /** Offsetting one channel by a constant, as an exposure change would,
      leaves every descriptor unchanged. */
  lemma DescriptorShiftInvariant(im: Img, i: int, ch: int, v: real)
    requires Describable(im, i)
    ensures Describable(Process.Shifted(im, ch, v), i)
    ensures Described(Process.Shifted(im, ch, v), i) == Described(im, i)
  {
    var s := Process.Shifted(im, ch, v);
    assert s.w == im.w && s.h == im.h && s.c == im.c;
    PlaneSplit(i, im.w, im.h);
    forall k | 0 <= k < 25 * im.c
      ensures Entry(s, i, k) == Entry(im, i, k)
    {
      var x, y := i % im.w, i / im.w;
      var z, dx, dy := k / 25, k % 25 / 5 - 2, k % 5 - 2;
      ShiftedRead(im, ch, v, x, y, z);
      ShiftedRead(im, ch, v, x + dx, y + dy, z);
    }
  }

  /** A clamped read of the shifted image is the clamped read of the image,
      offset by v in channel ch. */
  lemma ShiftedRead(im: Img, ch: int, v: real, x: int, y: int, z: int)
    requires im.Readable() && 0 <= z < im.c
    ensures Process.Shifted(im, ch, v).Readable()
    ensures Process.Shifted(im, ch, v).GetPixel(x, y, z) ==
      if z == ch then im.GetPixel(x, y, z) + v else im.GetPixel(x, y, z)
  {
    var s := Process.Shifted(im, ch, v);
    var cx, cy := Clamp(x, im.w), Clamp(y, im.h);
    GetPixelClamped(s, x, y, z);
    GetPixelClamped(im, x, y, z);
    Process.ShiftedAt(im, ch, v, cx, cy, z);
  }

  /** The dx and dy loops of describe_index for channel c: the 25 entries of
      that channel, written at the cursor. */
  method DescribeChannel(im: Image, i: int, c: int, cval: real, data: array<real>, start: int)
    requires im.Valid() && Describable(im.View(), i) && 0 <= c < im.c
    requires cval == im.View().GetPixel(i % im.w, i / im.w, c)
    requires data.Length == 25 * im.c && start == 25 * c && data != im.data
    modifies data
    ensures forall k :: 0 <= k < start ==> data[k] == old(data[k])
    ensures forall k :: start <= k < start + 25 ==> data[k] == Entry(im.View(), i, k)
  {
    var w := 5;
    var count := start;
    var dx := CDiv(-w, 2);
    while dx < (w + 1) / 2
      invariant -2 <= dx <= 3
      invariant count == start + 5 * (dx + 2)
      invariant forall k :: 0 <= k < start ==> data[k] == old(data[k])
      invariant forall k :: start <= k < count ==> data[k] == Entry(im.View(), i, k)
    {
      var dy := CDiv(-w, 2);
      while dy < (w + 1) / 2
        invariant -2 <= dy <= 3
        invariant count == start + 5 * (dx + 2) + (dy + 2)
        invariant forall k :: 0 <= k < start ==> data[k] == old(data[k])
        invariant forall k :: start <= k < count ==> data[k] == Entry(im.View(), i, k)
      {
        EntryAt(im.View(), i, c, dx, dy);
        var val := im.View().GetPixel(i % im.w + dx, i / im.w + dy, c);
        data[count] := cval - val;
        count := count + 1;
        dy := dy + 1;
      }
      dx := dx + 1;
    }
  }

  /** describe_index: fills the descriptor through a running cursor, channel
      by channel, each entry the centre minus the clamped neighbour. */
  method DescribeIndex(im: Image, i: int) returns (d: Descriptor)
    requires im.Valid() && Describable(im.View(), i)
    ensures d == Described(im.View(), i)
  {
    var w := 5;
    var data := new real[w * w * im.c];
    var count := 0;
    for c := 0 to im.c
      invariant count == 25 * c
      invariant forall k :: 0 <= k < count ==> data[k] == Entry(im.View(), i, k)
    {
      CentreIsPixel(im.View(), i, c);
      var cval := im.data[Mul(c, Mul(im.w, im.h)) + i];
      DescribeChannel(im, i, c, cval, data, count);
      count := count + w * w;
    }
    d := Descriptor(Point(i % im.w, i / im.w), w * w * im.c, data[..]);
  }

  // ---------------------------------------------------------------------
  // Marks

  /** The pixels covered by crosses centred on every point of the block
      [x0, x1) x [y0, y1), each cross reaching from offset lo up to (but not
      including) offset hi along its row and along its column. With
      hi - lo >= 1 the horizontal arms of one block row join into one bar,
      and so do the vertical arms of one block column. */
  predicate InBlock(px: int, py: int, x0: int, x1: int, y0: int, y1: int, lo: int, hi: int)
  {
    (y0 <= py < y1 && x0 + lo <= px < x1 - 1 + hi) ||
    (x0 <= px < x1 && y0 + lo <= py < y1 - 1 + hi)
  }

  /** The image with the block's crosses painted: channel z < 3 of every
      covered pixel takes colour[z]; everything else is kept. */
  function Marked(im: Img, x0: int, x1: int, y0: int, y1: int, lo: int, hi: int, colour: seq<real>): (r: Img)
    requires im.Valid() && |colour| == 3
  {
    Tabulate(im.w, im.h, im.c, (px, y, z) requires im.Readable() =>
      if 0 <= z < 3 && InBlock(px, y, x0, x1, y0, y1, lo, hi) then colour[z] else im.GetPixel(px, y, z))
  }

  /** Two of the six set_pixel calls of one pass: channel ch of the pixel at
      offset i on the row through (x, y) and on the column through (x, y). */
  method PaintArms(im: Image, x: int, y: int, i: int, ch: int, v: real)
    requires im.Valid()
    modifies im.data
    ensures forall px, py, z :: im.View().Inside(px, py, z) ==>
      im.View().GetPixel(px, py, z) ==
        if z == ch && ((py == y && px == x + i) || (px == x && py == y + i)) then v
        else old(im.View()).GetPixel(px, py, z)
  {
    im.SetPixel(x + i, y, ch, v);
    im.SetPixel(x, y + i, ch, v);
  }

  /** One pass of the marking loop at offset i: the six set_pixel calls, on
      the row through (x, y) at column x + i and on the column through (x, y)
      at row y + i, for channels 0, 1 and 2. */
  method CrossStep(im: Image, x: int, y: int, i: int, colour: seq<real>)
    requires im.Valid() && |colour| == 3
    modifies im.data
    ensures forall px, py, z :: im.View().Inside(px, py, z) ==>
      im.View().GetPixel(px, py, z) ==
        if 0 <= z < 3 && ((py == y && px == x + i) || (px == x && py == y + i)) then colour[z]
        else old(im.View()).GetPixel(px, py, z)
  {
    PaintArms(im, x, y, i, 0, colour[0]);
    PaintArms(im, x, y, i, 1, colour[1]);
    PaintArms(im, x, y, i, 2, colour[2]);
  }

  /** The marking loop for i from lo up to hi around (x, y): afterwards the
      cross of the one-point block at (x, y) is painted. */
  method DrawCross(im: Image, x: int, y: int, lo: int, hi: int, colour: seq<real>)
    requires im.Valid() && |colour| == 3 && lo < hi
    modifies im.data
    ensures im.View() == Marked(old(im.View()), x, x + 1, y, y + 1, lo, hi, colour)
  {
    var i := lo;
    while i < hi
      invariant lo <= i <= hi
      invariant forall px, py, z :: im.View().Inside(px, py, z) ==>
        im.View().GetPixel(px, py, z) ==
          if 0 <= z < 3 && ((py == y && x + lo <= px < x + i) || (px == x && y + lo <= py < y + i))
          then colour[z] else old(im.View()).GetPixel(px, py, z)
    {
      CrossStep(im, x, y, i, colour);
      i := i + 1;
    }
    ExtEq(im.View(), Marked(old(im.View()), x, x + 1, y, y + 1, lo, hi, colour));
  }

  /** The colour mark_spot paints in channels 0, 1 and 2: magenta. */
  const SpotColour: seq<real> := [1.0, 0.0, 1.0]

  /** mark_spot: a magenta cross through p, reaching 9 pixels each way. */
  method MarkSpot(im: Image, p: Point)
    requires im.Valid()
    modifies im.data
    ensures im.View() == Marked(old(im.View()), p.x, p.x + 1, p.y, p.y + 1, -9, 10, SpotColour)
  {
    var x := p.x;
    var y := p.y;
    DrawCross(im, x, y, -9, 10, SpotColour);
  }

  /** The spot's arms are symmetric: a pixel is painted exactly when it lies
      on the row or the column through p, at most 9 pixels away. */
  lemma SpotShape(p: Point, px: int, py: int)
    ensures InBlock(px, py, p.x, p.x + 1, p.y, p.y + 1, -9, 10) <==>
      (py == p.y && -9 <= px - p.x <= 9) || (px == p.x && -9 <= py - p.y <= 9)
  {
  }

  /** Painting the same marks twice paints nothing new. */
  lemma MarkedIdempotent(im: Img, x0: int, x1: int, y0: int, y1: int, lo: int, hi: int, colour: seq<real>)
    requires im.Valid() && |colour| == 3
    ensures Marked(Marked(im, x0, x1, y0, y1, lo, hi, colour), x0, x1, y0, y1, lo, hi, colour) ==
      Marked(im, x0, x1, y0, y1, lo, hi, colour)
  {
    var once := Marked(im, x0, x1, y0, y1, lo, hi, colour);
    ExtEq(Marked(once, x0, x1, y0, y1, lo, hi, colour), once);
  }

  /** Marks touch only channels 0, 1 and 2 and only covered pixels. */
  lemma MarkedKeeps(im: Img, x0: int, x1: int, y0: int, y1: int, lo: int, hi: int, colour: seq<real>, px: int, py: int, z: int)
    requires im.Valid() && |colour| == 3 && im.Inside(px, py, z)
    requires z >= 3 || !InBlock(px, py, x0, x1, y0, y1, lo, hi)
    ensures Marked(im, x0, x1, y0, y1, lo, hi, colour).GetPixel(px, py, z) == im.GetPixel(px, py, z)
  {
  }

  // ---------------------------------------------------------------------
  // Cornerness

  /** The weight of the squared trace in the Harris response. */
  const Alpha: real := 0.06

  /** The Harris response det(M) - Alpha * trace(M)^2 of the structure
      matrix M = [[xx, xy], [xy, yy]]. */
  function Response(xx: real, yy: real, xy: real): real
  {
    (xx * yy - xy * xy) - Alpha * (xx + yy) * (xx + yy)
  }

  /** The one-channel response map of a structure-matrix image S, whose
      channels 0, 1 and 2 hold xx, yy and xy. */
  function Cornerness(S: Img): (r: Img)
    requires Scannable(S)
    ensures r.Valid() && r.w == S.w && r.h == S.h && r.c == 1
  {
    Tabulate(S.w, S.h, 1, (x, y, z) requires S.Readable() =>
      Response(S.GetPixel(x, y, 0), S.GetPixel(x, y, 1), S.GetPixel(x, y, 2)))
  }

  /** A flat patch (no gradient) has response 0. */
  lemma FlatResponse()
    ensures Response(0.0, 0.0, 0.0) == 0.0
  {
  }

  /** An edge (gradient along one axis only) has response -Alpha * a^2,
      which is negative. */
  lemma EdgeResponse(a: real)
    requires a != 0.0
    ensures Response(a, 0.0, 0.0) == Response(0.0, a, 0.0) == -Alpha * (a * a)
    ensures -Alpha * (a * a) < 0.0
  {
    assert a * a > 0.0;
  }

  /** A corner (equal, uncorrelated gradients along both axes) has response
      (1 - 4 * Alpha) * a^2, which is positive. */
  lemma CornerResponse(a: real)
    requires a != 0.0
    ensures Response(a, a, 0.0) == (1.0 - 4.0 * Alpha) * (a * a)
    ensures (1.0 - 4.0 * Alpha) * (a * a) > 0.0
  {
    assert a * a > 0.0;
  }

  /** The response does not depend on which axis is x, nor on the sign of
      the cross term. */
  lemma ResponseSymmetric(xx: real, yy: real, xy: real)
    ensures Response(xx, yy, xy) == Response(yy, xx, xy) == Response(xx, yy, -xy)
  {
  }

  /** A zero structure matrix gives a zero response map. */
  lemma CornernessOfZero(S: Img)
    requires S.Readable() && IsZero(S)
    ensures Cornerness(S) == Constant(S.w, S.h, 1, 0.0)
  {
    var r := Cornerness(S);
    forall x, y, z | r.Inside(x, y, z)
      ensures r.GetPixel(x, y, z) == 0.0
    {
      GetPixelClamped(S, x, y, 0);
      GetPixelClamped(S, x, y, 1);
      GetPixelClamped(S, x, y, 2);
    }
    ExtEq(r, Constant(S.w, S.h, 1, 0.0));
  }

  /** The body of cornerness_response's loop at (x, y): det - alpha * trace^2
      of the structure matrix read there. */
  method PixelResponse(S: Image, x: int, y: int) returns (v: real)
    requires S.Valid() && S.View().Readable()
    ensures v == Response(S.View().GetPixel(x, y, 0), S.View().GetPixel(x, y, 1), S.View().GetPixel(x, y, 2))
  {
    var xx := S.View().GetPixel(x, y, 0);
    var yy := S.View().GetPixel(x, y, 1);
    var xy := S.View().GetPixel(x, y, 2);
    var alpha := Alpha;
    var det := xx * yy - xy * xy;
    var trace := xx + yy;
    v := det - alpha * trace * trace;
  }

  /** cornerness_response: a fresh w-by-h one-channel image of the response
      at every pixel of S. */
  method CornernessResponse(S: Image) returns (R: Image)
    requires S.Valid() && Scannable(S.View())
    ensures R.Valid() && fresh(R) && fresh(R.data)
    ensures R.View() == Cornerness(S.View())
  {
    R := new Image(S.w, S.h, 1);
    ghost var spec := Cornerness(S.View());
    for y := 0 to S.h
      invariant forall x', y', z' :: R.View().Inside(x', y', z') && y' < y ==>
        R.View().GetPixel(x', y', z') == spec.GetPixel(x', y', z')
    {
      for x := 0 to S.w
        invariant forall x', y', z' :: R.View().Inside(x', y', z') && (y' < y || (y' == y && x' < x)) ==>
          R.View().GetPixel(x', y', z') == spec.GetPixel(x', y', z')
      {
        var v := PixelResponse(S, x, y);
        R.SetPixel(x, y, 0, v);
      }
    }
    ExtEq(R.View(), spec);
  }

  // ---------------------------------------------------------------------
  // Non-maximum suppression

  /** The value nms_image writes over a suppressed response. */
  const Suppressed: real := -999999.0

  /** The neighbour (wx, wy) counts against pixel (x, y): both of its
      coordinates are nonnegative and its clamped channel-0 value is strictly
      greater. */
  predicate Beats(im: Img, x: int, y: int, wx: int, wy: int)
    requires im.Readable()
  {
    wx >= 0 && wy >= 0 && im.GetPixel(x, y, 0) < im.GetPixel(wx, wy, 0)
  }

  /** Some neighbour in the half-open window [x - w, x + w) x [y - w, y + w)
      beats (x, y). */
  ghost predicate Dominated(im: Img, w: int, x: int, y: int)
    requires im.Readable()
  {
    exists wx, wy :: x - w <= wx < x + w && y - w <= wy < y + w && Beats(im, x, y, wx, wy)
  }

  /** nms_image's result: channel 0 of every dominated pixel is replaced by
      Suppressed; everything else is copied. */
  ghost function NonMaxSuppressed(im: Img, w: int): (r: Img)
    requires Scannable(im)
    ensures r.Valid() && r.w == im.w && r.h == im.h && r.c == im.c
  {
    Tabulate(im.w, im.h, im.c, (x, y, z) requires im.Readable() =>
      if z == 0 && Dominated(im, w, x, y) then Suppressed else im.GetPixel(x, y, z))
  }

  /** The neighbour search of nms_image for pixel (x, y): rows, then
      columns, of the window, stopping at the first neighbour that beats the
      pixel. */
  method HasGreaterNeighbour(im: Image, w: int, x: int, y: int) returns (greater: bool)
    requires im.Valid() && im.View().Readable()
    ensures greater == Dominated(im.View(), w, x, y)
  {
    var value := im.View().GetPixel(x, y, 0);
    var flag := 1;
    var wy := y - w;
    while wy < y + w && flag != 0
      invariant flag == 0 || flag == 1
      invariant flag == 0 ==> Dominated(im.View(), w, x, y)
      invariant flag == 1 ==> y - w <= wy && forall wx', wy' ::
        x - w <= wx' < x + w && y - w <= wy' < wy ==> !Beats(im.View(), x, y, wx', wy')
      decreases y + w - wy
    {
      var wx := x - w;
      while wx < x + w && flag != 0
        invariant flag == 0 || flag == 1
        invariant flag == 0 ==> Dominated(im.View(), w, x, y)
        invariant flag == 1 ==> x - w <= wx && forall wx' ::
          x - w <= wx' < wx ==> !Beats(im.View(), x, y, wx', wy)
        decreases x + w - wx
      {
        if wx >= 0 && wy >= 0 && value < im.View().GetPixel(wx, wy, 0) {
          assert Beats(im.View(), x, y, wx, wy);
          flag := 0;
        }
        wx := wx + 1;
      }
      wy := wy + 1;
    }
    greater := flag == 0;
  }

  /** nms_image: a copy of im in which every dominated response is
      suppressed. The source writes Suppressed inside the search loop, at the
      moment it clears its flag; here the search reports and the caller
      writes, which leaves the same buffer. */
  method NmsImage(im: Image, w: int) returns (r: Image)
    requires im.Valid() && Scannable(im.View())
    ensures r.Valid() && fresh(r) && fresh(r.data)
    ensures r.View() == NonMaxSuppressed(im.View(), w)
  {
    r := Process.CopyImage(im);
    ghost var spec := NonMaxSuppressed(im.View(), w);
    for y := 0 to im.h
      invariant r.View().w == im.w && r.View().h == im.h && r.View().c == im.c
      invariant forall x', y', z' :: r.View().Inside(x', y', z') ==>
        r.View().GetPixel(x', y', z') ==
          if y' < y then spec.GetPixel(x', y', z') else im.View().GetPixel(x', y', z')
    {
      for x := 0 to im.w
        invariant forall x', y', z' :: r.View().Inside(x', y', z') ==>
          r.View().GetPixel(x', y', z') ==
            if y' < y || (y' == y && x' < x) then spec.GetPixel(x', y', z')
            else im.View().GetPixel(x', y', z')
      {
        var greater := HasGreaterNeighbour(im, w, x, y);
        if greater {
          r.SetPixel(x, y, 0, Suppressed);
        }
      }
    }
    ExtEq(r.View(), spec);
  }

  /** Every output value is the input value at that pixel or Suppressed, and
      only channel 0 can change. */
  lemma NmsValues(im: Img, w: int, x: int, y: int, z: int)
    requires Scannable(im) && im.Inside(x, y, z)
    ensures NonMaxSuppressed(im, w).Valid()
    ensures NonMaxSuppressed(im, w).w == im.w && NonMaxSuppressed(im, w).h == im.h
    ensures NonMaxSuppressed(im, w).c == im.c
    ensures NonMaxSuppressed(im, w).GetPixel(x, y, z) == im.GetPixel(x, y, z) ||
      NonMaxSuppressed(im, w).GetPixel(x, y, z) == Suppressed
    ensures z != 0 ==> NonMaxSuppressed(im, w).GetPixel(x, y, z) == im.GetPixel(x, y, z)
  {
  }

  /** A response at least as large as every neighbour the window reaches
      survives: ties are kept. */
  lemma NmsKeepsMaximum(im: Img, w: int, x: int, y: int)
    requires Scannable(im) && im.Inside(x, y, 0)
    requires forall wx, wy :: x - w <= wx < x + w && y - w <= wy < y + w && wx >= 0 && wy >= 0 ==>
      im.GetPixel(wx, wy, 0) <= im.GetPixel(x, y, 0)
    ensures NonMaxSuppressed(im, w).GetPixel(x, y, 0) == im.GetPixel(x, y, 0)
  {
  }

  /** A response with a strictly greater neighbour in the window is
      suppressed. */
  lemma NmsSuppresses(im: Img, w: int, x: int, y: int, wx: int, wy: int)
    requires Scannable(im) && im.Inside(x, y, 0)
    requires x - w <= wx < x + w && y - w <= wy < y + w && wx >= 0 && wy >= 0
    requires im.GetPixel(x, y, 0) < im.GetPixel(wx, wy, 0)
    ensures NonMaxSuppressed(im, w).GetPixel(x, y, 0) == Suppressed
  {
    assert Beats(im, x, y, wx, wy);
  }

  /** With w <= 0 the window is empty and nothing is suppressed. */
  lemma NmsEmptyWindow(im: Img, w: int)
    requires Scannable(im) && w <= 0
    ensures NonMaxSuppressed(im, w) == im
  {
    ExtEq(NonMaxSuppressed(im, w), im);
  }

  /** A response map that is constant in channel 0 is left unchanged. */
  lemma NmsOfFlat(im: Img, w: int, v: real)
    requires Scannable(im)
    requires forall x, y :: im.Inside(x, y, 0) ==> im.GetPixel(x, y, 0) == v
    ensures NonMaxSuppressed(im, w) == im
  {
    var r := NonMaxSuppressed(im, w);
    forall x, y, z | r.Inside(x, y, z)
      ensures r.GetPixel(x, y, z) == im.GetPixel(x, y, z)
    {
      if z == 0 && Dominated(im, w, x, y) {
        var wx, wy :| x - w <= wx < x + w && y - w <= wy < y + w && Beats(im, x, y, wx, wy);
        GetPixelClamped(im, wx, wy, 0);
        assert false;
      }
    }
    ExtEq(r, im);
  }

  /** The window is half-open: the neighbour w columns to the left is
      compared but the one w columns to the right is not. In a 2-by-1 map
      with w = 1 the left response survives beside a larger right one, while
      a right response beside a larger left one is suppressed. */
  lemma NmsWindowAsymmetric(im: Img)
    requires Scannable(im) && im.w == 2 && im.h == 1 && im.c == 1
    ensures im.GetPixel(0, 0, 0) < im.GetPixel(1, 0, 0) ==>
      NonMaxSuppressed(im, 1).GetPixel(0, 0, 0) == im.GetPixel(0, 0, 0)
    ensures im.GetPixel(1, 0, 0) < im.GetPixel(0, 0, 0) ==>
      NonMaxSuppressed(im, 1).GetPixel(1, 0, 0) == Suppressed
  {
    NmsKeepsMaximum(im, 1, 0, 0);
    if im.GetPixel(1, 0, 0) < im.GetPixel(0, 0, 0) {
      NmsSuppresses(im, 1, 1, 0, 0, 0);
    }
  }

  // ---------------------------------------------------------------------
  // Corner selection

  /** The response at (x, y) is a corner: it reaches thresh. */
  predicate IsCorner(R: Img, thresh: real, x: int, y: int)
    requires R.Readable()
  {
    R.GetPixel(x, y, 0) >= thresh
  }

  /** The offsets x + y * w of the corners among the first x pixels of row
      y, left to right. */
  function RowCorners(R: Img, thresh: real, y: int, x: int): seq<int>
    requires Scannable(R) && 0 <= y < R.h && 0 <= x <= R.w
  {
    if x == 0 then []
    else RowCorners(R, thresh, y, x - 1) + if IsCorner(R, thresh, x - 1, y) then [x - 1 + y * R.w] else []
  }

  /** The offsets of the corners in rows 0 .. y - 1, in raster order. */
  function Corners(R: Img, thresh: real, y: int): seq<int>
    requires Scannable(R) && 0 <= y <= R.h
  {
    if y == 0 then [] else Corners(R, thresh, y - 1) + RowCorners(R, thresh, y - 1, R.w)
  }

  /** The corners of one row are offsets of that row, below column x. */
  lemma {:induction false} RowCornersBounds(R: Img, thresh: real, y: int, x: int)
    requires Scannable(R) && 0 <= y < R.h && 0 <= x <= R.w
    ensures forall k :: 0 <= k < |RowCorners(R, thresh, y, x)| ==>
      y * R.w <= RowCorners(R, thresh, y, x)[k] < y * R.w + x
  {
    if x > 0 {
      RowCornersBounds(R, thresh, y, x - 1);
    }
  }

  /** The corners of one row come in increasing order. */
  lemma {:induction false} RowCornersIncreasing(R: Img, thresh: real, y: int, x: int)
    requires Scannable(R) && 0 <= y < R.h && 0 <= x <= R.w
    ensures forall i, j :: 0 <= i < j < |RowCorners(R, thresh, y, x)| ==>
      RowCorners(R, thresh, y, x)[i] < RowCorners(R, thresh, y, x)[j]
  {
    if x > 0 {
      RowCornersIncreasing(R, thresh, y, x - 1);
      RowCornersBounds(R, thresh, y, x - 1);
    }
  }

  /** Offset x' + y * w is listed for row y exactly when x' < x and the pixel
      (x', y) holds a corner. */
  lemma {:induction false} RowCornersMembers(R: Img, thresh: real, y: int, x: int, x': int)
    requires Scannable(R) && 0 <= y < R.h && 0 <= x <= R.w && 0 <= x' < R.w
    ensures x' + y * R.w in RowCorners(R, thresh, y, x) <==> x' < x && IsCorner(R, thresh, x', y)
  {
    if x > 0 {
      RowCornersMembers(R, thresh, y, x - 1, x');
      RowCornersBounds(R, thresh, y, x - 1);
    }
  }

  /** The corners of rows 0 .. y - 1 are offsets below y * w. */
  lemma {:induction false} CornersBounds(R: Img, thresh: real, y: int)
    requires Scannable(R) && 0 <= y <= R.h
    ensures forall k :: 0 <= k < |Corners(R, thresh, y)| ==> 0 <= Corners(R, thresh, y)[k] < y * R.w
  {
    if y > 0 {
      CornersBounds(R, thresh, y - 1);
      RowCornersBounds(R, thresh, y - 1, R.w);
      assert (y - 1) * R.w + R.w == y * R.w;
    }
  }

  /** harris_corner_detector stores corner offsets in strictly increasing
      raster order. */
  lemma {:induction false} CornersIncreasing(R: Img, thresh: real, y: int)
    requires Scannable(R) && 0 <= y <= R.h
    ensures forall i, j :: 0 <= i < j < |Corners(R, thresh, y)| ==>
      Corners(R, thresh, y)[i] < Corners(R, thresh, y)[j]
  {
    if y > 0 {
      CornersIncreasing(R, thresh, y - 1);
      CornersBounds(R, thresh, y - 1);
      RowCornersIncreasing(R, thresh, y - 1, R.w);
      RowCornersBounds(R, thresh, y - 1, R.w);
    }
  }

  /** The offset x' + y' * w of a pixel is listed exactly when its row is
      among the first y and it holds a corner. */
  lemma {:induction false} CornersMembers(R: Img, thresh: real, y: int, x': int, y': int)
    requires Scannable(R) && 0 <= y <= R.h && 0 <= x' < R.w && 0 <= y' < R.h
    ensures x' + y' * R.w in Corners(R, thresh, y) <==> y' < y && IsCorner(R, thresh, x', y')
  {
    if y > 0 {
      CornersMembers(R, thresh, y - 1, x', y');
      CornersMembersStep(R, thresh, y, x', y');
    }
  }

  /** The step of CornersMembers from y - 1 rows to y rows. */
  lemma CornersMembersStep(R: Img, thresh: real, y: int, x': int, y': int)
    requires Scannable(R) && 0 < y <= R.h && 0 <= x' < R.w && 0 <= y' < R.h
    requires x' + y' * R.w in Corners(R, thresh, y - 1) <==> y' < y - 1 && IsCorner(R, thresh, x', y')
    ensures x' + y' * R.w in Corners(R, thresh, y) <==> y' < y && IsCorner(R, thresh, x', y')
  {
    var before, row := Corners(R, thresh, y - 1), RowCorners(R, thresh, y - 1, R.w);
    var j := x' + y' * R.w;
    assert Corners(R, thresh, y) == before + row;
    assert (j in before + row) == (j in before || j in row);
    if y' == y - 1 {
      RowCornersMembers(R, thresh, y - 1, R.w, x');
      NotInEarlierRows(R, thresh, y - 1, x', y');
    } else {
      NotInOtherRow(R, thresh, y - 1, x', y');
    }
  }

  /** An offset of row y' is not among the corners of another row r. */
  lemma NotInOtherRow(R: Img, thresh: real, r: int, x': int, y': int)
    requires Scannable(R) && 0 <= r < R.h && 0 <= x' < R.w && 0 <= y' && y' != r
    ensures x' + y' * R.w !in RowCorners(R, thresh, r, R.w)
  {
    RowCornersBounds(R, thresh, r, R.w);
    if y' < r {
      MulMono(y' + 1, r, R.w);
      assert (y' + 1) * R.w == y' * R.w + R.w;
    } else {
      MulMono(r + 1, y', R.w);
      assert (r + 1) * R.w == r * R.w + R.w;
    }
  }

  /** An offset of row y' >= y is not among the corners of rows 0 .. y - 1. */
  lemma NotInEarlierRows(R: Img, thresh: real, y: int, x': int, y': int)
    requires Scannable(R) && 0 <= y <= R.h && 0 <= x' < R.w && y <= y'
    ensures x' + y' * R.w !in Corners(R, thresh, y)
  {
    CornersBounds(R, thresh, y);
    MulMono(y, y', R.w);
  }

  /** The capacity growth of the index buffer: a fresh buffer of twice the
      size whose first size entries are copied from the old one. */
  method Grow(indices: array<int>, size: int) returns (grown: array<int>, newSize: int)
    requires size == indices.Length
    ensures fresh(grown) && newSize == 2 * size && grown.Length == newSize
    ensures grown[..size] == indices[..size]
  {
    newSize := size * 2;
    grown := new int[newSize];
    forall k | 0 <= k < newSize / 2 {
      grown[k] := indices[k];
    }
  }

  /** Storing one more corner offset j: the count grows by one, the buffer
      doubles when the count outgrows it, and j lands in the last slot. */
  method Record(indices: array<int>, count: int, size: int, j: int)
    returns (indices': array<int>, count': int, size': int)
    requires 0 <= count <= size == indices.Length && size >= 1
    modifies indices
    ensures count' == count + 1 && count' <= size' == indices'.Length && size' >= 1
    ensures size' == if count' > size then 2 * size else size
    ensures indices' == indices || fresh(indices')
    ensures indices'[..count'] == old(indices[..count]) + [j]
  {
    count' := count + 1;
    size' := size;
    indices' := indices;
    if count' > size' {
      indices', size' := Grow(indices', size');
    }
    indices'[count' - 1] := j;
  }

  /** One row of the threshold scan of harris_corner_detector. */
  method ScanRow(R: Image, thresh: real, y: int, indices: array<int>, count: int, size: int)
    returns (indices': array<int>, count': int, size': int)
    requires R.Valid() && Scannable(R.View()) && 0 <= y < R.h
    requires 0 <= count <= size == indices.Length && size >= 1
    modifies indices
    ensures 0 <= count' <= size' == indices'.Length && size' >= 1
    ensures indices' == indices || fresh(indices')
    ensures indices'[..count'] == old(indices[..count]) + RowCorners(R.View(), thresh, y, R.w)
  {
    indices', count', size' := indices, count, size;
    for x := 0 to R.w
      invariant 0 <= count' <= size' == indices'.Length && size' >= 1
      invariant indices' == indices || fresh(indices')
      invariant indices'[..count'] == old(indices[..count]) + RowCorners(R.View(), thresh, y, x)
    {
      if R.View().GetPixel(x, y, 0) >= thresh {
        indices', count', size' := Record(indices', count', size', x + y * R.w);
      }
    }
  }

  /** The threshold scan of harris_corner_detector: the offsets of all
      responses reaching thresh, collected in raster order into a buffer that
      starts with room for 100 and doubles whenever the count outgrows it. */
  method CollectCorners(R: Image, thresh: real) returns (indices: array<int>, count: int)
    requires R.Valid() && Scannable(R.View())
    ensures 0 <= count <= indices.Length
    ensures indices[..count] == Corners(R.View(), thresh, R.h)
  {
    count := 0;
    var size := 100;
    indices := new int[size];
    for y := 0 to R.h
      invariant 0 <= count <= size == indices.Length && size >= 1 && fresh(indices)
      invariant indices[..count] == Corners(R.View(), thresh, y)
    {
      indices, count, size := ScanRow(R, thresh, y, indices, count, size);
    }
  }

  // ---------------------------------------------------------------------
  // Smoothing and the structure matrix

  /** A one-row, one-channel kernel, as make_1d_gaussian builds. */
  predicate RowKernel(g: Img)
  {
    g.Valid() && g.h == 1 && g.c == 1
  }

  /** smooth_image's column kernel: the row kernel g stood on its side, so
      that its pixel (0, i) is g's pixel (i, 0). */
  function Transposed(g: Img): (t: Img)
    requires RowKernel(g)
    ensures t.Valid() && t.w == 1 && t.h == g.w && t.c == 1
  {
    Tabulate(1, g.w, 1, (x, y, z) requires g.Readable() => g.GetPixel(y, 0, 0))
  }

  /** Standing a row kernel on its side keeps its buffer: both lay the same
      weights out in the same order, so the column kernel weighs what the
      row kernel weighs. */
  lemma TransposedBuffer(g: Img)
    requires RowKernel(g)
    ensures Transposed(g).data == g.data
  {
    var t := Transposed(g);
    assert |t.data| == |g.data| by {
      SizeIsProduct(1, g.w, 1);
      SizeIsProduct(g.w, 1, 1);
    }
    forall i | 0 <= i < |g.data|
      ensures t.data[i] == g.data[i]
    {
      MulIsProduct(i, 1);
      MulIsProduct(0, g.w);
      assert Index(0, i, 0, 1, g.w) == i;
      assert Index(i, 0, 0, g.w, 1) == i;
      assert t.Inside(0, i, 0) && g.Inside(i, 0, 0) by {
        SizeIsProduct(g.w, 1, 1);
      }
    }
  }

  /** smooth_image's result: the row pass with g, then the column pass with
      its transpose, each keeping the channels apart. */
  function Smoothed(im: Img, g: Img): (r: Img)
    requires im.Valid() && RowKernel(g)
    ensures r.Valid() && r.w == im.w && r.h == im.h && r.c == im.c
  {
    Preserved(Preserved(im, g), Transposed(g))
  }

  /** Smoothing the zero image gives the zero image. */
  lemma SmoothedZero(im: Img, g: Img)
    requires im.Readable() && RowKernel(g) && IsZero(im)
    ensures Smoothed(im, g) == Constant(im.w, im.h, im.c, 0.0)
  {
    ConvolveZero(im, g, true);
    var once := Preserved(im, g);
    ConvolveZero(once, Transposed(g), true);
  }

  /** smooth_image (the separable branch the source takes): copy the row
      kernel into a one-column kernel, convolve with the row kernel, then
      with the column kernel, both preserving channels. The Gaussian itself
      is the caller's g. */
  method SmoothImage(im: Image, g: Image) returns (s2: Image)
    requires im.Valid() && g.Valid() && RowKernel(g.View())
    ensures s2.Valid() && fresh(s2) && fresh(s2.data)
    ensures s2.View() == Smoothed(im.View(), g.View())
  {
    var g2 := new Image(1, g.w, 1);
    ghost var column := Transposed(g.View());
    for i := 0 to g.w
      invariant forall x, y, z :: g2.View().Inside(x, y, z) && y < i ==>
        g2.View().GetPixel(x, y, z) == column.GetPixel(x, y, z)
    {
      g2.SetPixel(0, i, 0, g.View().GetPixel(i, 0, 0));
    }
    ExtEq(g2.View(), column);
    var s := ConvolveImage(im, g, 1);
    s2 := ConvolveImage(s, g2, 1);
  }

  /** The per-pixel gradient products before smoothing: channel 0 holds
      Ix^2, channel 1 Iy^2 and channel 2 Ix * Iy. */
  function GradientProducts(ix: Img, iy: Img): (r: Img)
    requires ix.Valid() && iy.Valid() && ix.c == 1 && iy.c == 1
    requires iy.w == ix.w && iy.h == ix.h
    ensures r.Valid() && r.w == ix.w && r.h == ix.h && r.c == 3
  {
    Tabulate(ix.w, ix.h, 3, (x, y, z) requires ix.Readable() && iy.Readable() =>
      ProductAt(ix.GetPixel(x, y, 0), iy.GetPixel(x, y, 0), z))
  }

  /** Channel z of the gradient products at one pixel: Ix * Ix, Iy * Iy and
      Ix * Iy. */
  function ProductAt(vx: real, vy: real, z: int): real
  {
    if z == 0 then vx * vx else if z == 1 then vy * vy else vx * vy
  }

  /** The x and y gradients structure_matrix works from: im convolved with
      gx and with gy, channels summed. */
  function GradientX(im: Img): (r: Img)
    requires im.Valid()
    ensures r.Valid() && r.w == im.w && r.h == im.h && r.c == 1
  {
    Convolved(im, Kernel3(GxRows), false)
  }

  function GradientY(im: Img): (r: Img)
    requires im.Valid()
    ensures r.Valid() && r.w == im.w && r.h == im.h && r.c == 1
  {
    Convolved(im, Kernel3(GyRows), false)
  }

  /** structure_matrix's result: the smoothed gradient products. */
  function Structure(im: Img, g: Img): (r: Img)
    requires im.Valid() && RowKernel(g)
    ensures r.Valid() && r.w == im.w && r.h == im.h && r.c == 3
  {
    Smoothed(GradientProducts(GradientX(im), GradientY(im)), g)
  }

  /** The body of structure_matrix's loop at (x, y): the three products
      written into channels 0, 1 and 2. */
  method StoreProducts(ix: Image, iy: Image, sm: Image, x: int, y: int)
    requires ix.Valid() && iy.Valid() && sm.Valid()
    requires ix.View().Readable() && iy.View().Readable()
    requires sm.data != ix.data && sm.data != iy.data
    modifies sm.data
    ensures forall px, py, z :: sm.View().Inside(px, py, z) ==>
      sm.View().GetPixel(px, py, z) ==
        if px == x && py == y && 0 <= z < 3 then ProductAt(ix.View().GetPixel(x, y, 0), iy.View().GetPixel(x, y, 0), z)
        else old(sm.View()).GetPixel(px, py, z)
  {
    var valueX := ix.View().GetPixel(x, y, 0);
    var valueY := iy.View().GetPixel(x, y, 0);
    WriteProducts(sm, x, y, valueX, valueY);
  }

  /** The three writes of structure_matrix's loop at (x, y). */
  method WriteProducts(sm: Image, x: int, y: int, valueX: real, valueY: real)
    requires sm.Valid()
    modifies sm.data
    ensures forall px, py, z :: sm.View().Inside(px, py, z) ==>
      sm.View().GetPixel(px, py, z) ==
        if px == x && py == y && 0 <= z < 3 then ProductAt(valueX, valueY, z)
        else old(sm.View()).GetPixel(px, py, z)
  {
    sm.SetPixel(x, y, 0, valueX * valueX);
    sm.SetPixel(x, y, 1, valueY * valueY);
    sm.SetPixel(x, y, 2, valueX * valueY);
  }

  /** The product loops of structure_matrix. */
  method Products(ix: Image, iy: Image) returns (sm: Image)
    requires ix.Valid() && iy.Valid() && ix.c == 1 && iy.c == 1
    requires iy.w == ix.w && iy.h == ix.h
    ensures sm.Valid() && fresh(sm) && fresh(sm.data)
    ensures sm.View() == GradientProducts(ix.View(), iy.View())
  {
    sm := new Image(ix.w, ix.h, 3);
    ghost var spec := GradientProducts(ix.View(), iy.View());
    for y := 0 to ix.h
      invariant forall x', y', z' :: sm.View().Inside(x', y', z') && y' < y ==>
        sm.View().GetPixel(x', y', z') == spec.GetPixel(x', y', z')
    {
      for x := 0 to ix.w
        invariant forall x', y', z' :: sm.View().Inside(x', y', z') && (y' < y || (y' == y && x' < x)) ==>
          sm.View().GetPixel(x', y', z') == spec.GetPixel(x', y', z')
      {
        StoreProducts(ix, iy, sm, x, y);
      }
    }
    ExtEq(sm.View(), spec);
  }

  /** structure_matrix: gradients by the gx and gy kernels, their products
      per pixel, then smoothing with the row kernel g and its transpose.
      The source also allocates an image up front that it then overwrites
      with the smoothed result; that unused buffer is not modelled. */
  method StructureMatrix(im: Image, g: Image) returns (S: Image)
    requires im.Valid() && g.Valid() && RowKernel(g.View())
    ensures S.Valid() && fresh(S) && fresh(S.data)
    ensures S.View() == Structure(im.View(), g.View())
  {
    var gx := MakeGxFilter();
    var ix := ConvolveImage(im, gx, 0);
    var gy := MakeGyFilter();
    var iy := ConvolveImage(im, gy, 0);
    var sm := Products(ix, iy);
    S := SmoothImage(sm, g);
  }

  // ---------------------------------------------------------------------
  // The detector

  /** The offsets harris_corner_detector keeps: the pixels whose suppressed
      response reaches thresh, in raster order. */
  ghost function CornerOffsets(im: Img, g: Img, thresh: real, nms: int): seq<int>
    requires im.Valid() && RowKernel(g)
  {
    var R := NonMaxSuppressed(Cornerness(Structure(im, g)), nms);
    Corners(R, thresh, R.h)
  }

  /** Every kept offset addresses a pixel of im. */
  lemma CornerOffsetsInside(im: Img, g: Img, thresh: real, nms: int)
    requires im.Valid() && RowKernel(g)
    ensures forall k :: 0 <= k < |CornerOffsets(im, g, thresh, nms)| ==>
      0 <= CornerOffsets(im, g, thresh, nms)[k] < Mul(im.w, im.h)
  {
    var R := NonMaxSuppressed(Cornerness(Structure(im, g)), nms);
    CornersBounds(R, thresh, R.h);
    MulIsProduct(im.w, im.h);
  }

  /** A row with no pixel reaching thresh before column x contributes no corner. */
  lemma {:induction false} RowCornersNone(R: Img, thresh: real, y: int, x: int)
    requires Scannable(R) && 0 <= y < R.h && 0 <= x <= R.w
    requires forall x' :: 0 <= x' < x ==> !IsCorner(R, thresh, x', y)
    ensures RowCorners(R, thresh, y, x) == []
  {
    if x > 0 {
      RowCornersNone(R, thresh, y, x - 1);
    }
  }

  /** With no pixel reaching thresh in rows 0 .. y - 1 there is no corner. */
  lemma {:induction false} CornersNone(R: Img, thresh: real, y: int)
    requires Scannable(R) && 0 <= y <= R.h
    requires forall x', y' :: 0 <= x' < R.w && 0 <= y' < y ==> !IsCorner(R, thresh, x', y')
    ensures Corners(R, thresh, y) == []
  {
    if y > 0 {
      CornersNone(R, thresh, y - 1);
      RowCornersNone(R, thresh, y - 1, R.w);
    }
  }

  /** The products of two zero gradients are zero. */
  lemma ProductsOfZero(ix: Img, iy: Img)
    requires ix.Readable() && iy.Readable() && ix.c == 1 && iy.c == 1
    requires iy.w == ix.w && iy.h == ix.h && IsZero(ix) && IsZero(iy)
    ensures GradientProducts(ix, iy) == Constant(ix.w, ix.h, 3, 0.0)
  {
    var p := GradientProducts(ix, iy);
    forall x, y, z | p.Inside(x, y, z)
      ensures p.GetPixel(x, y, z) == 0.0
    {
      assert ix.GetPixel(x, y, 0) == 0.0 && iy.GetPixel(x, y, 0) == 0.0;
    }
    ExtEq(p, Constant(ix.w, ix.h, 3, 0.0));
  }

  /** A flat image has zero gradients, so a zero structure matrix. */
  lemma StructureOfFlat(im: Img, g: Img, v: real)
    requires im.Readable() && RowKernel(g) && IsFlat(im, v)
    ensures Structure(im, g) == Constant(im.w, im.h, 3, 0.0)
  {
    GxOfFlat(im, v);
    GyOfFlat(im, v);
    var ix, iy := GradientX(im), GradientY(im);
    assert IsZero(ix) && IsZero(iy);
    ProductsOfZero(ix, iy);
    SmoothedZero(GradientProducts(ix, iy), g);
  }

  /** A flat image yields no corner for any positive threshold: its
      response is 0 everywhere, suppression keeps it, and 0 < thresh. */
  lemma FlatImageHasNoCorners(im: Img, g: Img, v: real, thresh: real, nms: int)
    requires im.Readable() && RowKernel(g) && IsFlat(im, v) && thresh > 0.0
    ensures CornerOffsets(im, g, thresh, nms) == []
  {
    StructureOfFlat(im, g, v);
    var S := Structure(im, g);
    assert IsZero(S);
    CornernessOfZero(S);
    var R0 := Cornerness(S);
    NmsOfFlat(R0, nms, 0.0);
    CornersNone(NonMaxSuppressed(R0, nms), thresh, R0.h);
  }

  /** The last loop of harris_corner_detector: one descriptor per kept
      offset, in order. */
  method DescribeAll(im: Image, kept: seq<int>) returns (d: seq<Descriptor>)
    requires im.Valid() && forall k :: 0 <= k < |kept| ==> Describable(im.View(), kept[k])
    ensures |d| == |kept|
    ensures forall k :: 0 <= k < |kept| ==> d[k] == Described(im.View(), kept[k])
  {
    d := [];
    for i := 0 to |kept|
      invariant |d| == i
      invariant forall k :: 0 <= k < i ==> d[k] == Described(im.View(), kept[k])
    {
      var desc := DescribeIndex(im, kept[i]);
      d := d + [desc];
    }
  }

  /** harris_corner_detector: structure matrix, response, suppression,
      threshold scan, then one descriptor per kept offset; n is the number
      of corners. */
  method HarrisCornerDetector(im: Image, g: Image, thresh: real, nms: int)
    returns (d: seq<Descriptor>, n: int)
    requires im.Valid() && im.View().Readable() && g.Valid() && RowKernel(g.View())
    ensures n == |CornerOffsets(im.View(), g.View(), thresh, nms)| == |d|
    ensures forall k :: 0 <= k < n ==>
      Describable(im.View(), CornerOffsets(im.View(), g.View(), thresh, nms)[k]) &&
      d[k] == Described(im.View(), CornerOffsets(im.View(), g.View(), thresh, nms)[k])
  {
    ghost var offsets := CornerOffsets(im.View(), g.View(), thresh, nms);
    CornerOffsetsInside(im.View(), g.View(), thresh, nms);
    var S := StructureMatrix(im, g);
    var R := CornernessResponse(S);
    var Rnms := NmsImage(R, nms);
    var indices, count := CollectCorners(Rnms, thresh);
    assert Rnms.View() == NonMaxSuppressed(Cornerness(Structure(im.View(), g.View())), nms);
    assert indices[..count] == offsets;
    n := count;
    d := DescribeAll(im, indices[..count]);
  }
}
