/** Rectangles and chroma-subsampled images (geom.go and ycbcr.go of package image). */
module Image {
  import opened Base

  // ---------------------------------------------------------------- 64-bit arithmetic

  /** bits.Mul64. */
  function Mul64(x: int, y: int): (int, int) {
    (x * y / TWO64, x * y % TWO64)
  }

  /** int(u) for a uint64 u. */
  function ToInt(u: int): int {
    if u <= MAX_INT then u else u - TWO64
  }

  /** x * y * z, or -1 if an argument is negative or the product does not fit an int. */
  function Mul3NonNeg(x: int, y: int, z: int): int {
    if x < 0 || y < 0 || z < 0 then -1
    else
      var (hi, lo) := Mul64(x, y);
      if hi != 0 then -1
      else
        var (hi', lo') := Mul64(lo, z);
        if hi' != 0 then -1
        else
          var a := ToInt(lo');
          if a < 0 || a % TWO64 != lo' then -1 else a
  }

  function Add2NonNeg(x: int, y: int): int {
    if x < 0 || y < 0 then -1
    else
      var a := WrapInt(x + y);
      if a < 0 then -1 else a
  }

  /** Exact or -1. A product whose first factors overflow 64 bits is refused even when z is 0. */
  lemma Mul3Exact(x: int, y: int, z: int)
    ensures Mul3NonNeg(x, y, z) ==
            if x >= 0 && y >= 0 && z >= 0 && x * y < TWO64 && (x * y) * z <= MAX_INT then (x * y) * z else -1
  {
    if x >= 0 && y >= 0 && z >= 0 {
      var p := x * y;
      if p < TWO64 {
        assert Mul64(x, y) == (0, p);
        var q := p * z;
        assert Mul64(p, z) == (q / TWO64, q % TWO64);
      } else {
        assert Mul64(x, y).0 > 0;
      }
    }
  }

  lemma Add2Exact(x: int, y: int)
    requires x <= MAX_INT && y <= MAX_INT
    ensures Add2NonNeg(x, y) == if x >= 0 && y >= 0 && x + y <= MAX_INT then x + y else -1
  {
  }

  // ---------------------------------------------------------------- geometry

  datatype Point = Point(X: int, Y: int)

  datatype Rectangle = Rectangle(Min: Point, Max: Point) {
    function Dx(): int {
      Max.X - Min.X
    }

    function Dy(): int {
      Max.Y - Min.Y
    }

    predicate Empty() {
      Min.X >= Max.X || Min.Y >= Max.Y
    }

    predicate Has(p: Point) {
      Min.X <= p.X < Max.X && Min.Y <= p.Y < Max.Y
    }

    /** Intersect: assigns the tighter bound to each field of a copy. */
    function Intersect(s: Rectangle): Rectangle {
      var r := this;
      var r := if r.Min.X < s.Min.X then r.(Min := r.Min.(X := s.Min.X)) else r;
      var r := if r.Min.Y < s.Min.Y then r.(Min := r.Min.(Y := s.Min.Y)) else r;
      var r := if r.Max.X > s.Max.X then r.(Max := r.Max.(X := s.Max.X)) else r;
      var r := if r.Max.Y > s.Max.Y then r.(Max := r.Max.(Y := s.Max.Y)) else r;
      if r.Empty() then ZR else r
    }
  }

  const ZR := Rectangle(Point(0, 0), Point(0, 0))

  /** The intersection contains exactly the points of both, and is the zero rectangle if there are none. */
  lemma IntersectIsIntersection(r: Rectangle, s: Rectangle, p: Point)
    ensures r.Intersect(s).Has(p) <==> r.Has(p) && s.Has(p)
    ensures (forall q :: !(r.Has(q) && s.Has(q))) ==> r.Intersect(s) == Rectangle(Point(0, 0), Point(0, 0))
  {
    var t := r.Intersect(s);
    if !t.Empty() {
      assert r.Has(t.Min) && s.Has(t.Min);
    }
  }

  // ---------------------------------------------------------------- subsampling

  datatype Ratio = Ratio444 | Ratio422 | Ratio420 | Ratio440 | Ratio411 | Ratio410

  /** Go's division truncates towards zero. */
  function Div(a: int, d: int): int
    requires d > 0
  {
    if a >= 0 then a / d else -(-a / d)
  }

  /** yCbCrSize: width and height of the Y plane and of the chroma planes, in int arithmetic. */
  function IntSize(r: Rectangle, ratio: Ratio): (int, int, int, int) {
    var (w, h) := (WrapInt(r.Dx()), WrapInt(r.Dy()));
    match ratio
    case Ratio422 => (w, h, IntSpan(r.Min.X, r.Max.X, 1, 2), h)
    case Ratio420 => (w, h, IntSpan(r.Min.X, r.Max.X, 1, 2), IntSpan(r.Min.Y, r.Max.Y, 1, 2))
    case Ratio440 => (w, h, w, IntSpan(r.Min.Y, r.Max.Y, 1, 2))
    case Ratio411 => (w, h, IntSpan(r.Min.X, r.Max.X, 3, 4), h)
    case Ratio410 => (w, h, IntSpan(r.Min.X, r.Max.X, 3, 4), IntSpan(r.Min.Y, r.Max.Y, 1, 2))
    case Ratio444 => (w, h, w, h)
  }

  /** (max + up)/d - min/d */
  function IntSpan(min: int, max: int, up: int, d: int): int
    requires d > 0
  {
    WrapInt(Div(WrapInt(max + up), d) - Div(min, d))
  }

  /** The same sizes as exact numbers. */
  function Size(r: Rectangle, ratio: Ratio): (int, int, int, int) {
    var (w, h) := (r.Dx(), r.Dy());
    match ratio
    case Ratio422 => (w, h, Div(r.Max.X + 1, 2) - Div(r.Min.X, 2), h)
    case Ratio420 => (w, h, Div(r.Max.X + 1, 2) - Div(r.Min.X, 2), Div(r.Max.Y + 1, 2) - Div(r.Min.Y, 2))
    case Ratio440 => (w, h, w, Div(r.Max.Y + 1, 2) - Div(r.Min.Y, 2))
    case Ratio411 => (w, h, Div(r.Max.X + 3, 4) - Div(r.Min.X, 4), h)
    case Ratio410 => (w, h, Div(r.Max.X + 3, 4) - Div(r.Min.X, 4), Div(r.Max.Y + 1, 2) - Div(r.Min.Y, 2))
    case Ratio444 => (w, h, w, h)
  }

  /** A slice b[lo:hi] of an image's buffer. */
  datatype Slice = Slice(lo: int, hi: int)

  datatype YCbCr = YCbCr(Y: Slice, Cb: Slice, Cr: Slice, YStride: int, CStride: int, ratio: Ratio, Rect: Rectangle) {
    function YOffset(x: int, y: int): int {
      (y - Rect.Min.Y) * YStride + (x - Rect.Min.X)
    }

    function COffset(x: int, y: int): int {
      match ratio
      case Ratio422 => (y - Rect.Min.Y) * CStride + (Div(x, 2) - Div(Rect.Min.X, 2))
      case Ratio420 => (Div(y, 2) - Div(Rect.Min.Y, 2)) * CStride + (Div(x, 2) - Div(Rect.Min.X, 2))
      case Ratio440 => (Div(y, 2) - Div(Rect.Min.Y, 2)) * CStride + (x - Rect.Min.X)
      case Ratio411 => (y - Rect.Min.Y) * CStride + (Div(x, 4) - Div(Rect.Min.X, 4))
      case Ratio410 => (Div(y, 2) - Div(Rect.Min.Y, 2)) * CStride + (Div(x, 4) - Div(Rect.Min.X, 4))
      case Ratio444 => (y - Rect.Min.Y) * CStride + (x - Rect.Min.X)
    }

    /** Where in the buffer the three samples of a pixel are. */
    function At(x: int, y: int): (int, int, int) {
      (Y.lo + YOffset(x, y), Cb.lo + COffset(x, y), Cr.lo + COffset(x, y))
    }

    /** Indexing the planes at the pixel's offsets does not panic. */
    predicate InPlanes(x: int, y: int) {
      && 0 <= YOffset(x, y) < Y.hi - Y.lo
      && 0 <= COffset(x, y) < Cb.hi - Cb.lo
      && 0 <= COffset(x, y) < Cr.hi - Cr.lo
    }

    /** SubImage; the slice expressions need the offsets of the corner to be within the planes. */
    function SubImage(r: Rectangle): YCbCr {
      var r := r.Intersect(Rect);
      if r.Empty() then YCbCr(Slice(0, 0), Slice(0, 0), Slice(0, 0), 0, 0, ratio, ZR)
      else
        var yi := YOffset(r.Min.X, r.Min.Y);
        var ci := COffset(r.Min.X, r.Min.Y);
        YCbCr(Slice(Y.lo + yi, Y.hi), Slice(Cb.lo + ci, Cb.hi), Slice(Cr.lo + ci, Cr.hi), YStride, CStride, ratio, r)
    }
  }

  /** YCbCrAt: the three samples, or zeros outside of the bounds. */
  method YCbCrAt(p: YCbCr, b: array<byte>, x: int, y: int) returns (c: (byte, byte, byte))
    requires p.Rect.Has(Point(x, y)) ==>
               p.InPlanes(x, y) && 0 <= p.Y.lo && 0 <= p.Cb.lo && 0 <= p.Cr.lo
               && p.Y.hi <= b.Length && p.Cb.hi <= b.Length && p.Cr.hi <= b.Length
    ensures c == if p.Rect.Has(Point(x, y)) then (b[p.At(x, y).0], b[p.At(x, y).1], b[p.At(x, y).2]) else (0, 0, 0)
  {
    if !p.Rect.Has(Point(x, y)) {
      return (0, 0, 0);
    }
    var yi := p.YOffset(x, y);
    var ci := p.COffset(x, y);
    return (b[p.Y.lo + yi], b[p.Cb.lo + ci], b[p.Cr.lo + ci]);
  }

  const MIN_INT := -MAX_INT - 1

  /** The coordinates of a rectangle are ints. */
  predicate IsInt(r: Rectangle) {
    && MIN_INT <= r.Min.X <= MAX_INT && MIN_INT <= r.Min.Y <= MAX_INT
    && MIN_INT <= r.Max.X <= MAX_INT && MIN_INT <= r.Max.Y <= MAX_INT
  }

  /** Neither the differences of the coordinates nor rounding up the upper bounds wraps around. */
  predicate NoWrap(r: Rectangle, ratio: Ratio) {
    && r.Max.X <= MAX_INT - (XDivisor(ratio) - 1) && r.Max.Y <= MAX_INT - (YDivisor(ratio) - 1)
    && MIN_INT <= r.Dx() <= MAX_INT && MIN_INT <= r.Dy() <= MAX_INT
  }

  /** One side of a rectangle that is not empty: the sizes wrap around to negative numbers or not at all. */
  lemma SpanWraps(min: int, max: int, d: int)
    requires MIN_INT <= min < max <= MAX_INT && (d == 1 || d == 2 || d == 4)
    ensures var exact := Div(max + d - 1, d) - Div(min, d);
            if max - min <= MAX_INT && max <= MAX_INT - (d - 1)
            then WrapInt(max - min) == max - min && IntSpan(min, max, d - 1, d) == exact
            else WrapInt(max - min) < 0 || IntSpan(min, max, d - 1, d) < 0
    ensures d == 1 ==> IntSpan(min, max, 0, 1) == WrapInt(max - min)
  {
    WrapOnce(max - min);
    if max - min <= MAX_INT {
      if max <= MAX_INT - (d - 1) {
        SpanFits(min, max, d);
      } else {
        SpanTurns(min, max, d);
      }
    }
  }

  lemma SpanFits(min: int, max: int, d: int)
    requires MIN_INT <= min < max <= MAX_INT - (d - 1) && max - min <= MAX_INT && (d == 1 || d == 2 || d == 4)
    ensures IntSpan(min, max, d - 1, d) == Div(max + d - 1, d) - Div(min, d)
  {
    hide Div, WrapInt;
    WrapOnce(max + d - 1);
    DivBounds(min, d);
    DivBounds(max + d - 1, d);
    WrapOnce(Div(max + d - 1, d) - Div(min, d));
  }

  lemma SpanTurns(min: int, max: int, d: int)
    requires MAX_INT - (d - 1) < max <= MAX_INT && 0 < max - min <= MAX_INT && (d == 2 || d == 4)
    ensures IntSpan(min, max, d - 1, d) < 0
  {
    hide Div, WrapInt;
    WrapOnce(max + d - 1);
    DivBounds(min, d);
    DivBounds(max + d - 1 - TWO64, d);
    WrapOnce(Div(max + d - 1 - TWO64, d) - Div(min, d));
  }

  lemma WrapOnce(n: int)
    requires MIN_INT <= n <= MAX_INT + TWO64
    ensures WrapInt(n) == if n <= MAX_INT then n else n - TWO64
  {
  }

  lemma DivBounds(a: int, d: int)
    requires d == 1 || d == 2 || d == 4
    ensures d == 1 ==> Div(a, d) == a
    ensures d > 1 && a >= 0 ==> 0 <= 2 * Div(a, d) <= a
    ensures d > 1 && a < 0 ==> a <= 2 * Div(a, d) <= 0 && 4 * Div(a, d) <= a + 3
  {
  }

  /** A rectangle that is not empty has the exact sizes, or a negative one. */
  lemma SizeWraps(r: Rectangle, ratio: Ratio)
    requires IsInt(r) && !r.Empty()
    ensures var (w, h, cw, ch) := IntSize(r, ratio);
            if NoWrap(r, ratio) then IntSize(r, ratio) == Size(r, ratio) else w < 0 || h < 0 || cw < 0 || ch < 0
  {
    hide IntSpan, Div, WrapInt;
    SpanWraps(r.Min.X, r.Max.X, XDivisor(ratio));
    SpanWraps(r.Min.Y, r.Max.Y, YDivisor(ratio));
  }

  predicate Fits(size: (int, int, int, int)) {
    var (w, h, cw, ch) := size;
    w >= 0 && h >= 0 && cw >= 0 && ch >= 0 && w * h + 2 * (cw * ch) <= MAX_INT
  }

  /** NewYCbCr; None stands for its panic. A rectangle that is not empty gets its planes if and only if
      their exact sizes fit and no bound has wrapped around on the way. */
  method NewYCbCr(r: Rectangle, ratio: Ratio) returns (p: Option<YCbCr>, b: array<byte>)
    requires IsInt(r)
    ensures p.Some? <==> Fits(IntSize(r, ratio))
    ensures p.Some? ==> p.value == Planes(r, ratio, IntSize(r, ratio)) && b.Length == p.value.Cr.hi
    ensures !r.Empty() ==> (p.Some? <==> NoWrap(r, ratio) && Fits(Size(r, ratio)))
    ensures !r.Empty() && p.Some? ==> p.value == Fresh(r, ratio)
  {
    hide IntSize, Size, NoWrap;
    var (w, h, cw, ch) := IntSize(r, ratio);
    if !r.Empty() {
      SizeWraps(r, ratio);
    }
    var m1, m2 := Mul3NonNeg(1, w, h), Mul3NonNeg(2, cw, ch);
    IntSizeIsInt(r, ratio);
    PlaneLength(w, h, cw, ch);
    if Add2NonNeg(m1, m2) < 0 {
      b := new byte[0];
      return None, b;
    }
    hide Mul3NonNeg, Add2NonNeg;
    var i0 := w * h + 0 * cw * ch;
    var i1 := w * h + 1 * cw * ch;
    var i2 := w * h + 2 * cw * ch;
    Layout(cw, ch);
    b := new byte[i2];
    return Some(YCbCr(Slice(0, i0), Slice(i0, i1), Slice(i1, i2), w, cw, ratio, r)), b;
  }

  lemma IntSizeIsInt(r: Rectangle, ratio: Ratio)
    ensures IntSize(r, ratio).0 <= MAX_INT && IntSize(r, ratio).2 <= MAX_INT
  {
    hide Div;
  }

  /** The image of one pixel at the largest coordinates: its planes would have three bytes, but rounding
      up wraps around, and NewYCbCr panics. */
  method LargestPixel() returns (p: Option<YCbCr>)
    ensures p.None?
    ensures var r := Rectangle(Point(MAX_INT - 1, MAX_INT - 1), Point(MAX_INT, MAX_INT));
            Size(r, Ratio420) == (1, 1, 1, 1) && Fits(Size(r, Ratio420))
  {
    var b;
    p, b := NewYCbCr(Rectangle(Point(MAX_INT - 1, MAX_INT - 1), Point(MAX_INT, MAX_INT)), Ratio420);
  }

  lemma Layout(cw: int, ch: int)
    ensures 0 * cw * ch == 0 && 1 * cw * ch == cw * ch && 2 * cw * ch == 2 * (cw * ch)
  {
  }

  /** What the guard of NewYCbCr decides. */
  lemma PlaneLength(w: int, h: int, cw: int, ch: int)
    requires w <= MAX_INT && cw <= MAX_INT
    ensures Add2NonNeg(Mul3NonNeg(1, w, h), Mul3NonNeg(2, cw, ch)) >= 0 <==>
            w >= 0 && h >= 0 && cw >= 0 && ch >= 0 && w * h + 2 * (cw * ch) <= MAX_INT
  {
    Mul3Exact(1, w, h);
    Mul3Exact(2, cw, ch);
    assert (1 * w) * h == w * h && (2 * cw) * ch == 2 * (cw * ch);
    hide Mul3NonNeg;
    Add2Exact(Mul3NonNeg(1, w, h), Mul3NonNeg(2, cw, ch));
    hide Add2NonNeg;
    if w >= 0 && h >= 0 {
      assert w * h >= 0;
    }
    if cw >= 0 && ch >= 0 {
      assert cw * ch >= 0;
    }
  }

  /** The planes of the given sizes, one behind the other. */
  function Planes(r: Rectangle, ratio: Ratio, size: (int, int, int, int)): YCbCr {
    var (w, h, cw, ch) := size;
    YCbCr(Slice(0, w * h), Slice(w * h, w * h + cw * ch), Slice(w * h + cw * ch, w * h + 2 * (cw * ch)),
          w, cw, ratio, r)
  }

  function Fresh(r: Rectangle, ratio: Ratio): YCbCr {
    Planes(r, ratio, Size(r, ratio))
  }

  // ---------------------------------------------------------------- main results

  function XDivisor(ratio: Ratio): (d: int)
    ensures d == 1 || d == 2 || d == 4
  {
    match ratio
    case Ratio444 | Ratio440 => 1
    case Ratio422 | Ratio420 => 2
    case Ratio411 | Ratio410 => 4
  }

  function YDivisor(ratio: Ratio): (d: int)
    ensures d == 1 || d == 2
  {
    match ratio
    case Ratio444 | Ratio422 | Ratio411 => 1
    case Ratio420 | Ratio440 | Ratio410 => 2
  }

  /** The last chroma column (or row) is not lost to truncation: it is if the upper bound is 0 or
      just below, which needs a negative lower bound. */
  predicate Aligned(max: int, d: int) {
    max > 0 || max <= -(d - 1) || d == 1
  }

  lemma Columns(min: int, max: int, x: int, d: int)
    requires min <= x < max && (d == 1 || d == 2 || d == 4)
    ensures var n := Div(max + d - 1, d) - Div(min, d);
            && 0 <= Div(x, d) - Div(min, d) <= n
            && (Aligned(max, d) ==> Div(x, d) - Div(min, d) < n)
            && (!Aligned(max, d) && x == max - 1 ==> Div(x, d) - Div(min, d) == n)
  {
  }

  lemma Uniform(r: Rectangle, ratio: Ratio, x: int, y: int)
    ensures var (dx, dy) := (XDivisor(ratio), YDivisor(ratio));
            && Fresh(r, ratio).COffset(x, y) ==
               (Div(y, dy) - Div(r.Min.Y, dy)) * Size(r, ratio).2 + (Div(x, dx) - Div(r.Min.X, dx))
            && Size(r, ratio).2 == Div(r.Max.X + dx - 1, dx) - Div(r.Min.X, dx)
            && Size(r, ratio).3 == Div(r.Max.Y + dy - 1, dy) - Div(r.Min.Y, dy)
  {
    assert forall a :: Div(a, 1) == a;
  }

  /** A cell of a table of h rows of w columns; the cell behind the last row is outside. */
  lemma Cell(row: int, col: int, w: int, h: int)
    requires 0 <= row <= h && 0 <= col <= w
    ensures row < h && col < w ==> 0 <= row * w + col < h * w
    ensures (row == h - 1 && col == w) || row == h ==> row * w + col >= h * w
  {
    MulMono(0, row, w);
    if row < h {
      MulMono(row, h - 1, w);
      NextRow(h - 1, w);
    } else {
      MulMono(h, row, w);
    }
  }

  lemma MulMono(a: int, b: int, w: int)
    requires a <= b && 0 <= w
    ensures a * w <= b * w
  {
  }

  lemma NextRow(a: int, w: int)
    ensures a * w + w == (a + 1) * w
  {
  }

  lemma LumaInPlane(r: Rectangle, ratio: Ratio, x: int, y: int)
    requires r.Has(Point(x, y))
    ensures var p := Fresh(r, ratio); 0 <= p.YOffset(x, y) < p.Y.hi - p.Y.lo
  {
    Cell(y - r.Min.Y, x - r.Min.X, r.Dx(), r.Dy());
    assert r.Dx() * r.Dy() == r.Dy() * r.Dx();
  }

  lemma ChromaInPlane(r: Rectangle, ratio: Ratio, x: int, y: int)
    requires r.Has(Point(x, y))
    ensures var p, inside := Fresh(r, ratio), Aligned(r.Max.X, XDivisor(ratio)) && Aligned(r.Max.Y, YDivisor(ratio));
            && (inside ==> p.InPlanes(x, y))
            && (!inside && x == r.Max.X - 1 && y == r.Max.Y - 1 ==> !p.InPlanes(x, y))
  {
    var dx, dy := XDivisor(ratio), YDivisor(ratio);
    Uniform(r, ratio, x, y);
    Columns(r.Min.X, r.Max.X, x, dx);
    Columns(r.Min.Y, r.Max.Y, y, dy);
    LumaInPlane(r, ratio, x, y);
    PlaneSize(r, ratio);
    var (cw, ch) := (Size(r, ratio).2, Size(r, ratio).3);
    hide Div, Size, Fresh, YCbCr.COffset, YCbCr.YOffset, Aligned, XDivisor, YDivisor;
    Cell(Div(y, dy) - Div(r.Min.Y, dy), Div(x, dx) - Div(r.Min.X, dx), cw, ch);
  }

  lemma PlaneSize(r: Rectangle, ratio: Ratio)
    ensures var p, size := Fresh(r, ratio), Size(r, ratio).3 * Size(r, ratio).2;
            p.Cb.hi - p.Cb.lo == size && p.Cr.hi - p.Cr.lo == size
  {
    hide Size, Div;
    var (cw, ch) := (Size(r, ratio).2, Size(r, ratio).3);
    assert cw * ch == ch * cw;
  }

  /** The planes of a new image contain the samples of all of its pixels, for all six ratios, exactly
      if no subsampled axis ends at 0 or just below: in particular for every non-negative Min. */
  lemma PlanesContainPixels(r: Rectangle, ratio: Ratio)
    requires !r.Empty()
    ensures (forall x, y | r.Has(Point(x, y)) :: Fresh(r, ratio).InPlanes(x, y)) <==>
            Aligned(r.Max.X, XDivisor(ratio)) && Aligned(r.Max.Y, YDivisor(ratio))
    ensures r.Min.X >= 0 && r.Min.Y >= 0 ==> Aligned(r.Max.X, XDivisor(ratio)) && Aligned(r.Max.Y, YDivisor(ratio))
  {
    forall x, y | r.Has(Point(x, y))
      ensures Aligned(r.Max.X, XDivisor(ratio)) && Aligned(r.Max.Y, YDivisor(ratio)) ==> Fresh(r, ratio).InPlanes(x, y)
    {
      ChromaInPlane(r, ratio, x, y);
    }
    ChromaInPlane(r, ratio, r.Max.X - 1, r.Max.Y - 1);
    assert r.Has(Point(r.Max.X - 1, r.Max.Y - 1));
  }

  /** The 4:2:0 image of the rectangle (-2,-2)-(0,0) has no chroma sample for the pixel (-1,-1). */
  lemma MisalignedExample()
    ensures !Fresh(Rectangle(Point(-2, -2), Point(0, 0)), Ratio420).InPlanes(-1, -1)
  {
    ChromaInPlane(Rectangle(Point(-2, -2), Point(0, 0)), Ratio420, -1, -1);
  }

  /** Taking one sub-image after another. */
  function SubImages(p: YCbCr, rs: seq<Rectangle>): YCbCr
    decreases |rs|
  {
    if rs == [] then p else SubImages(p.SubImage(rs[0]), rs[1..])
  }

  ghost predicate InAll(rs: seq<Rectangle>, q: Point) {
    forall i | 0 <= i < |rs| :: rs[i].Has(q)
  }

  lemma Telescope(a: int, b: int, c: int, w: int)
    ensures (a - b) * w + (b - c) * w == (a - c) * w
  {
  }

  /** The chroma offset by the two divisors of the ratio. */
  lemma OffsetByDivisors(p: YCbCr, x: int, y: int)
    ensures var (dx, dy) := (XDivisor(p.ratio), YDivisor(p.ratio));
            p.COffset(x, y) == (Div(y, dy) - Div(p.Rect.Min.Y, dy)) * p.CStride + (Div(x, dx) - Div(p.Rect.Min.X, dx))
  {
  }

  lemma DivMono(a: int, b: int, d: int)
    requires a <= b && (d == 1 || d == 2 || d == 4)
    ensures Div(a, d) <= Div(b, d)
  {
  }

  /** Offsets from the corner of an image to a point go by way of the corner of a part of it. */
  lemma OffsetsAdd(p: YCbCr, s: YCbCr, x: int, y: int)
    requires s.ratio == p.ratio && s.YStride == p.YStride && s.CStride == p.CStride
    ensures var a := s.Rect.Min;
            && p.YOffset(a.X, a.Y) + s.YOffset(x, y) == p.YOffset(x, y)
            && p.COffset(a.X, a.Y) + s.COffset(x, y) == p.COffset(x, y)
  {
    var a, b, dy := s.Rect.Min, p.Rect.Min, YDivisor(p.ratio);
    OffsetByDivisors(p, x, y);
    OffsetByDivisors(p, a.X, a.Y);
    OffsetByDivisors(s, x, y);
    hide Div, XDivisor, YDivisor, YCbCr.COffset;
    Telescope(y, a.Y, b.Y, p.YStride);
    Telescope(Div(y, dy), Div(a.Y, dy), Div(b.Y, dy), p.CStride);
  }

  lemma SubImageShares(p: YCbCr, r: Rectangle, x: int, y: int)
    requires r.Has(Point(x, y)) && p.Rect.Has(Point(x, y))
    ensures var s := p.SubImage(r);
            && s.Rect.Has(Point(x, y)) && s.At(x, y) == p.At(x, y) && s.ratio == p.ratio
            && (s.Y.hi, s.Cb.hi, s.Cr.hi) == (p.Y.hi, p.Cb.hi, p.Cr.hi)
  {
    IntersectIsIntersection(r, p.Rect, Point(x, y));
    hide YCbCr.COffset, YCbCr.YOffset;
    OffsetsAdd(p, p.SubImage(r), x, y);
  }

  /** The planes of the sub-image contain the samples of its pixels if those of the image do. */
  lemma SubImageInPlanes(p: YCbCr, r: Rectangle, x: int, y: int)
    requires r.Has(Point(x, y)) && p.Rect.Has(Point(x, y)) && p.InPlanes(x, y)
    requires p.YStride >= 0 && p.CStride >= 0
    ensures p.SubImage(r).InPlanes(x, y)
  {
    SubImageShares(p, r, x, y);
    var s, dx, dy := p.SubImage(r), XDivisor(p.ratio), YDivisor(p.ratio);
    var a := s.Rect.Min;
    DivMono(a.X, x, dx);
    DivMono(a.Y, y, dy);
    OffsetByDivisors(s, x, y);
    hide Div, XDivisor, YDivisor, YCbCr.COffset, Rectangle.Intersect;
    MulMono(0, y - a.Y, p.YStride);
    MulMono(0, Div(y, dy) - Div(a.Y, dy), p.CStride);
  }

  /** Any nesting of SubImage calls shares its samples with the original image: a point in all of the
      rectangles is a pixel of the result, stored at the same place. */
  lemma {:induction false} SubImagesShare(p: YCbCr, rs: seq<Rectangle>, x: int, y: int)
    requires p.Rect.Has(Point(x, y)) && InAll(rs, Point(x, y))
    ensures var s := SubImages(p, rs);
            && s.Rect.Has(Point(x, y)) && s.At(x, y) == p.At(x, y)
            && (s.Y.hi, s.Cb.hi, s.Cr.hi) == (p.Y.hi, p.Cb.hi, p.Cr.hi)
    decreases |rs|
  {
    if rs != [] {
      assert rs[0].Has(Point(x, y));
      SubImageShares(p, rs[0], x, y);
      assert InAll(rs[1..], Point(x, y));
      SubImagesShare(p.SubImage(rs[0]), rs[1..], x, y);
    }
  }

  /** And no other points are pixels of the result. */
  lemma {:induction false} SubImagesBounds(p: YCbCr, rs: seq<Rectangle>, x: int, y: int)
    requires SubImages(p, rs).Rect.Has(Point(x, y))
    ensures p.Rect.Has(Point(x, y)) && InAll(rs, Point(x, y))
    decreases |rs|
  {
    if rs != [] {
      SubImagesBounds(p.SubImage(rs[0]), rs[1..], x, y);
      IntersectIsIntersection(rs[0], p.Rect, Point(x, y));
      forall i | 0 <= i < |rs|
        ensures rs[i].Has(Point(x, y))
      {
        assert i > 0 ==> rs[i] == rs[1..][i - 1];
      }
    }
  }

  /** An image whose planes lie in a buffer of n bytes and contain the samples of all pixels. */
  ghost predicate WellFormed(p: YCbCr, n: nat) {
    && p.YStride >= 0 && p.CStride >= 0
    && 0 <= p.Y.lo && p.Y.hi <= n && 0 <= p.Cb.lo && p.Cb.hi <= n && 0 <= p.Cr.lo && p.Cr.hi <= n
    && forall x, y | p.Rect.Has(Point(x, y)) :: p.InPlanes(x, y)
  }

  /** What NewYCbCr returns is well-formed, unless truncation loses the last chroma samples. */
  lemma FreshWellFormed(r: Rectangle, ratio: Ratio, n: nat)
    requires !r.Empty() && Aligned(r.Max.X, XDivisor(ratio)) && Aligned(r.Max.Y, YDivisor(ratio))
    requires var (w, h, cw, ch) := Size(r, ratio); w >= 0 && h >= 0 && cw >= 0 && ch >= 0
    requires n == Fresh(r, ratio).Cr.hi
    ensures WellFormed(Fresh(r, ratio), n)
  {
    PlanesContainPixels(r, ratio);
    var (w, h, cw, ch) := Size(r, ratio);
    assert w * h >= 0 && cw * ch >= 0;
  }

  lemma SubImageWellFormed(p: YCbCr, r: Rectangle, n: nat)
    requires WellFormed(p, n)
    ensures WellFormed(p.SubImage(r), n)
  {
    var s := p.SubImage(r);
    if !r.Intersect(p.Rect).Empty() {
      var corner := s.Rect.Min;
      IntersectIsIntersection(r, p.Rect, corner);
      assert p.InPlanes(corner.X, corner.Y);
      forall x, y | s.Rect.Has(Point(x, y))
        ensures s.InPlanes(x, y)
      {
        IntersectIsIntersection(r, p.Rect, Point(x, y));
        SubImageInPlanes(p, r, x, y);
      }
    }
  }

  lemma {:induction false} SubImagesWellFormed(p: YCbCr, rs: seq<Rectangle>, n: nat)
    requires WellFormed(p, n)
    ensures WellFormed(SubImages(p, rs), n)
    decreases |rs|
  {
    if rs != [] {
      SubImageWellFormed(p, rs[0], n);
      SubImagesWellFormed(p.SubImage(rs[0]), rs[1..], n);
    }
  }

  /** Reading a pixel through any nesting of sub-images: the original samples, or zeros outside. */
  method NestedAt(p: YCbCr, b: array<byte>, rs: seq<Rectangle>, x: int, y: int) returns (c: (byte, byte, byte))
    requires WellFormed(p, b.Length)
    ensures var inside := p.Rect.Has(Point(x, y)) && InAll(rs, Point(x, y));
            && (inside ==> p.InPlanes(x, y))
            && c == if inside then (b[p.At(x, y).0], b[p.At(x, y).1], b[p.At(x, y).2]) else (0, 0, 0)
  {
    var s := SubImages(p, rs);
    SubImagesWellFormed(p, rs, b.Length);
    if p.Rect.Has(Point(x, y)) && InAll(rs, Point(x, y)) {
      SubImagesShare(p, rs, x, y);
    } else if s.Rect.Has(Point(x, y)) {
      SubImagesBounds(p, rs, x, y);
    }
    c := YCbCrAt(s, b, x, y);
  }

  // ---------------------------------------------------------------- which pixel a sample belongs to

  /** Cells of different rows or columns are at different places. */
  lemma CellApart(row: int, col: int, row': int, col': int, w: int)
    requires 0 <= col < w && 0 <= col' < w
    ensures row * w + col == row' * w + col' <==> row == row' && col == col'
  {
    if row < row' {
      MulMono(row + 1, row', w);
      NextRow(row, w);
    } else if row' < row {
      MulMono(row' + 1, row, w);
      NextRow(row', w);
    }
  }

  /** Two pixels share their sample in a plane of rows and columns of the given sizes exactly if they agree
      after division by the sizes. */
  predicate SameCell(a: Point, b: Point, dx: int, dy: int)
    requires dx > 0 && dy > 0
  {
    Div(a.X, dx) == Div(b.X, dx) && Div(a.Y, dy) == Div(b.Y, dy)
  }

  /** Where the samples of two pixels are: every pixel has its own luma sample, the pixels of one cell share
      their chroma samples, and no sample is of two kinds. */
  predicate Apart(p: YCbCr, a: Point, b: Point) {
    var (ya, ba, ra) := p.At(a.X, a.Y);
    var (yb, bb, rb) := p.At(b.X, b.Y);
    var same := SameCell(a, b, XDivisor(p.ratio), YDivisor(p.ratio));
    && (ya == yb <==> a == b) && (ba == bb <==> same) && (ra == rb <==> same)
    && ya != bb && ya != rb && ba != rb
  }

  lemma LumaApart(r: Rectangle, ratio: Ratio, a: Point, b: Point)
    requires r.Has(a) && r.Has(b)
    ensures Fresh(r, ratio).At(a.X, a.Y).0 == Fresh(r, ratio).At(b.X, b.Y).0 <==> a == b
  {
    CellApart(a.Y - r.Min.Y, a.X - r.Min.X, b.Y - r.Min.Y, b.X - r.Min.X, r.Dx());
  }

  lemma ChromaApart(r: Rectangle, ratio: Ratio, a: Point, b: Point)
    requires r.Has(a) && r.Has(b) && Aligned(r.Max.X, XDivisor(ratio))
    ensures Fresh(r, ratio).COffset(a.X, a.Y) == Fresh(r, ratio).COffset(b.X, b.Y) <==>
            SameCell(a, b, XDivisor(ratio), YDivisor(ratio))
  {
    var dx, dy := XDivisor(ratio), YDivisor(ratio);
    Uniform(r, ratio, a.X, a.Y);
    Uniform(r, ratio, b.X, b.Y);
    Columns(r.Min.X, r.Max.X, a.X, dx);
    Columns(r.Min.X, r.Max.X, b.X, dx);
    hide Div, Size, Fresh, YCbCr.COffset, Aligned, XDivisor, YDivisor;
    CellApart(Div(a.Y, dy) - Div(r.Min.Y, dy), Div(a.X, dx) - Div(r.Min.X, dx),
              Div(b.Y, dy) - Div(r.Min.Y, dy), Div(b.X, dx) - Div(r.Min.X, dx), Size(r, ratio).2);
  }

  /** In a new image. */
  lemma FreshApart(r: Rectangle, ratio: Ratio, a: Point, b: Point)
    requires r.Has(a) && r.Has(b) && Aligned(r.Max.X, XDivisor(ratio)) && Aligned(r.Max.Y, YDivisor(ratio))
    ensures Apart(Fresh(r, ratio), a, b)
  {
    hide Div, Size, YCbCr.COffset, YCbCr.YOffset, Aligned, XDivisor, YDivisor, SameCell;
    LumaApart(r, ratio, a, b);
    ChromaApart(r, ratio, a, b);
    ChromaInPlane(r, ratio, a.X, a.Y);
    ChromaInPlane(r, ratio, b.X, b.Y);
  }

  /** And in any nesting of its sub-images. */
  lemma SubImagesApart(r: Rectangle, ratio: Ratio, rs: seq<Rectangle>, a: Point, b: Point)
    requires Aligned(r.Max.X, XDivisor(ratio)) && Aligned(r.Max.Y, YDivisor(ratio))
    requires var s := SubImages(Fresh(r, ratio), rs); s.Rect.Has(a) && s.Rect.Has(b)
    ensures Apart(SubImages(Fresh(r, ratio), rs), a, b)
  {
    hide Div, Size, YCbCr.COffset, YCbCr.YOffset, YCbCr.At, Aligned, XDivisor, YDivisor, SameCell;
    var p := Fresh(r, ratio);
    SubImagesBounds(p, rs, a.X, a.Y);
    SubImagesBounds(p, rs, b.X, b.Y);
    SubImagesShare(p, rs, a.X, a.Y);
    SubImagesShare(p, rs, b.X, b.Y);
    SubImagesRatio(p, rs);
    FreshApart(r, ratio, a, b);
  }

  lemma {:induction false} SubImagesRatio(p: YCbCr, rs: seq<Rectangle>)
    ensures SubImages(p, rs).ratio == p.ratio
    decreases |rs|
  {
    if rs != [] {
      SubImagesRatio(p.SubImage(rs[0]), rs[1..]);
    }
  }

  /** YStride is the distance between vertically adjacent pixels, and the samples of a row are adjacent; the
      first pixel comes first. */
  lemma Adjacent(p: YCbCr, x: int, y: int)
    ensures p.At(x + 1, y).0 == p.At(x, y).0 + 1 && p.At(x, y + 1).0 == p.At(x, y).0 + p.YStride
    ensures p.At(p.Rect.Min.X, p.Rect.Min.Y) == (p.Y.lo, p.Cb.lo, p.Cr.lo)
  {
    NextRow(y - p.Rect.Min.Y, p.YStride);
  }

  /** The table of the type's documentation: how many luma columns and samples there are for one of chroma. */
  function Proportions(ratio: Ratio): (int, int) {
    match ratio
    case Ratio444 => (1, 1)
    case Ratio422 => (2, 2)
    case Ratio420 => (2, 4)
    case Ratio440 => (1, 2)
    case Ratio411 => (4, 4)
    case Ratio410 => (4, 8)
  }

  lemma PlaneProportions(a: nat, b: nat, c: nat, d: nat, ratio: Ratio)
    requires a <= c && b <= d
    ensures var p := Fresh(Rectangle(Point(4 * a, 4 * b), Point(4 * c, 4 * d)), ratio);
            var (columns, samples) := Proportions(ratio);
            && p.YStride == columns * p.CStride && p.Y.hi - p.Y.lo == samples * (p.Cb.hi - p.Cb.lo)
            && p.Cr.hi - p.Cr.lo == p.Cb.hi - p.Cb.lo
  {
    var r := Rectangle(Point(4 * a, 4 * b), Point(4 * c, 4 * d));
    var (w, h, cw, ch) := Size(r, ratio);
    Quarters(a, c);
    Quarters(b, d);
    hide Div;
    var (columns, samples) := Proportions(ratio);
    assert w == columns * cw && samples % columns == 0 && h == samples / columns * ch;
    Product(columns, cw, samples / columns, ch);
  }

  lemma Quarters(a: nat, c: nat)
    ensures Div(4 * c + 1, 2) - Div(4 * a, 2) == 2 * (c - a) && Div(4 * c + 3, 4) - Div(4 * a, 4) == c - a
  {
    Quarter(c);
    Quarter(a);
  }

  lemma Quarter(c: nat)
    ensures Div(4 * c + 1, 2) == 2 * c == Div(4 * c, 2) && Div(4 * c + 3, 4) == c == Div(4 * c, 4)
  {
  }

  lemma Product(a: int, b: int, c: int, d: int)
    ensures (a * b) * (c * d) == (a * c) * (b * d)
  {
    assert (a * b) * (c * d) == a * (b * c) * d == a * (c * b) * d;
  }
}
