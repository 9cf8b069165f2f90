/**
 * The device-independent drawing operations of Canvas. A device only
 * provides draw_pixel (and may override fill_rect); every operation here
 * is modelled by the sequence of device calls it makes, with the 8-bit
 * coordinate arithmetic of the source made explicit as arithmetic
 * modulo 256.
 */
module Canvas {
  import opened Common

  /** The 5- and 6-bit channels of a 16-bit colour. */
  type u5 = x: int | 0 <= x < 32
  type u6 = x: int | 0 <= x < 64

  /** uint8_t arithmetic: the value modulo 256. */
  function W(n: int): u8
  {
    n % 256
  }

  // ---- Colours ----

  /** color16_t: 5 bits of red, 6 of green and 5 of blue. */
  datatype Color16 = Color16(red: u5, green: u6, blue: u5)

  /** The rgb view of the union: blue in the low five bits, then green, then red. */
  function Rgb(c: Color16): (r: u16)
    ensures r % 32 == c.blue && (r / 32) % 64 == c.green && r / 2048 == c.red
  {
    c.red * 2048 + c.green * 32 + c.blue
  }

  /** The fields of an rgb value. */
  function FromRgb(rgb: u16): (c: Color16)
    ensures Rgb(c) == rgb
  {
    Color16(rgb / 2048, (rgb / 32) % 64, rgb % 32)
  }

  /** The union's two views describe the same colour. */
  lemma RgbRoundTrip(c: Color16)
    ensures FromRgb(Rgb(c)) == c
  {
  }

  /** One channel of shade: scale percent of the channel, rounded down. */
  function ShadeChannel(scale: nat, v: nat): nat
    requires scale <= 100
  {
    (scale * v) / 100
  }

  /** Scaling a channel by at most 100 percent never brightens it. */
  lemma ShadeChannelBounds(scale: nat, v: nat)
    requires scale <= 100
    ensures ShadeChannel(scale, v) <= v
    ensures scale == 100 ==> ShadeChannel(scale, v) == v
    ensures scale == 0 ==> ShadeChannel(scale, v) == 0
  {
    MulMono(scale, 100, v);
  }

  /** One more row of h: (i + 1) * h is i * h + h. */
  lemma MulSucc(i: int, h: int)
    ensures (i + 1) * h == i * h + h
  {
  }

  /** shade: the scale is clamped to 100 percent and every channel scaled by it. */
  function Shade(c: Color16, scale: u8): (r: Color16)
    ensures r.red <= c.red && r.green <= c.green && r.blue <= c.blue
    ensures scale >= 100 ==> r == c
    ensures scale == 0 ==> r == Color16(0, 0, 0)
  {
    var s := if scale > 100 then 100 else scale;
    ShadeChannelBounds(s, c.red);
    ShadeChannelBounds(s, c.green);
    ShadeChannelBounds(s, c.blue);
    Color16(ShadeChannel(s, c.red), ShadeChannel(s, c.green), ShadeChannel(s, c.blue))
  }

  /** A larger scale never gives a darker shade. */
  lemma ShadeMonotone(c: Color16, s1: u8, s2: u8)
    requires s1 <= s2
    ensures var a := Shade(c, s1); var b := Shade(c, s2);
            a.red <= b.red && a.green <= b.green && a.blue <= b.blue
  {
    var t1 := if s1 > 100 then 100 else s1;
    var t2 := if s2 > 100 then 100 else s2;
    MulMono(t1, t2, c.red);
    MulMono(t1, t2, c.green);
    MulMono(t1, t2, c.blue);
    DivMono(t1 * c.red, t2 * c.red, 100);
    DivMono(t1 * c.green, t2 * c.green, 100);
    DivMono(t1 * c.blue, t2 * c.blue, 100);
  }

  /** Division by a positive number is monotone. */
  lemma DivMono(a: nat, b: nat, d: nat)
    requires a <= b && 0 < d
    ensures a / d <= b / d
  {
    if a / d > b / d {
      MulMono(b / d + 1, a / d, d);
      assert false;
    }
  }

  /** blend: the floor average of each channel. */
  function Blend(c1: Color16, c2: Color16): (r: Color16)
    ensures Between(r.red, c1.red, c2.red) && Between(r.green, c1.green, c2.green)
            && Between(r.blue, c1.blue, c2.blue)
    ensures 2 * r.red <= c1.red + c2.red < 2 * r.red + 2
    ensures 2 * r.green <= c1.green + c2.green < 2 * r.green + 2
    ensures 2 * r.blue <= c1.blue + c2.blue < 2 * r.blue + 2
  {
    Color16((c1.red + c2.red) / 2, (c1.green + c2.green) / 2, (c1.blue + c2.blue) / 2)
  }

  /** v lies between a and b, in either order. */
  predicate Between(v: int, a: int, b: int)
  {
    (a <= v <= b) || (b <= v <= a)
  }

  /** Blending is commutative, and blending a colour with itself gives it back. */
  lemma BlendSymmetric(c1: Color16, c2: Color16)
    ensures Blend(c1, c2) == Blend(c2, c1)
    ensures Blend(c1, c1) == c1
  {
  }

  /** set_orientation: the direction's low bit is stored and the previous value returned. */
  function SetOrientation(current: u8, direction: u8): (r: (u8, u8))
    ensures r.0 == current
    ensures r.1 < 2 && r.1 % 2 == direction % 2
  {
    (current, direction % 2)
  }

  /** get_orientation after set_orientation reads the low bit, and the next set returns it. */
  lemma OrientationRoundTrip(current: u8, d1: u8, d2: u8)
    ensures SetOrientation(SetOrientation(current, d1).1, d2).0 == d1 % 2
    ensures SetOrientation(SetOrientation(current, d1).1, d1).1 == SetOrientation(current, d1).1
  {
  }

  // ---- Pixels, rectangles and lines ----

  /** A pixel position handed to the device's draw_pixel. */
  datatype Point = Point(x: u8, y: u8)

  /** The quotient and remainder of i * h + j by h. */
  lemma Split(i: nat, h: nat, j: nat)
    requires j < h
    ensures (i * h + j) / h == i && (i * h + j) % h == j
  {
    ModUnique(i * h + j, h, i, j);
  }

  /**
   * fill_rect: column by column, one draw_pixel per position; draw k is
   * at column k / height and row k % height of the rectangle.
   */
  method FillRect(x: u8, y: u8, width: u8, height: u8) returns (ps: seq<Point>)
    ensures |ps| == width * height
    ensures forall k :: 0 <= k < |ps| ==> ps[k] == Point(W(x + k / height), W(y + k % height))
  {
    ps := [];
    var i := 0;
    while i < width
      invariant 0 <= i <= width
      invariant |ps| == i * height
      invariant forall k :: 0 <= k < |ps| ==> ps[k] == Point(W(x + k / height), W(y + k % height))
    {
      var j := 0;
      while j < height
        invariant 0 <= j <= height
        invariant |ps| == i * height + j
        invariant forall k :: 0 <= k < |ps| ==> ps[k] == Point(W(x + k / height), W(y + k % height))
      {
        Split(i, height, j);
        ps := ps + [Point(W(x + i), W(y + j))];
        j := j + 1;
      }
      MulSucc(i, height);
      i := i + 1;
    }
  }

  /** Without wrap-around, every pixel of [x, x + width) x [y, y + height) is drawn by fill_rect. */
  lemma FillRectCovers(x: u8, y: u8, width: u8, height: u8, ps: seq<Point>, p: Point)
    requires x + width <= 256 && y + height <= 256
    requires |ps| == width * height
    requires forall k :: 0 <= k < |ps| ==> ps[k] == Point(W(x + k / height), W(y + k % height))
    requires x <= p.x < x + width && y <= p.y < y + height
    ensures p in ps
  {
    var i, j := p.x - x, p.y - y;
    var k := i * height + j;
    assert k < |ps| by {
      MulSucc(i, height);
      MulMono(i + 1, width, height);
    }
    assert k / height == i && k % height == j by {
      Split(i, height, j);
    }
    assert ps[k] == Point(W(x + i), W(y + j));
    assert W(x + i) == p.x && W(y + j) == p.y;
  }

  /** Without wrap-around, fill_rect draws nothing outside [x, x + width) x [y, y + height). */
  lemma FillRectInside(x: u8, y: u8, width: u8, height: u8, ps: seq<Point>, k: nat)
    requires x + width <= 256 && y + height <= 256
    requires |ps| == width * height
    requires forall k :: 0 <= k < |ps| ==> ps[k] == Point(W(x + k / height), W(y + k % height))
    requires k < |ps|
    ensures x <= ps[k].x < x + width && y <= ps[k].y < y + height
  {
    assert height > 0;
    DivMod(k, height);
    var i, j := k / height, k % height;
    if i >= width {
      MulMono(width, i, height);
      assert false;
    }
    assert ps[k] == Point(W(x + i), W(y + j));
    assert W(x + i) == x + i && W(y + j) == y + j;
  }

  /** The distance between two coordinates. */
  function Dist(a: int, b: int): nat
  {
    if a > b then a - b else b - a
  }

  /**
   * The endpoints after draw_line's normalisation: swapped to make the
   * line shallow (steep lines run along y) and ordered along the major
   * axis.
   */
  datatype Norm = Norm(steep: bool, x0: u8, y0: u8, x1: u8, y1: u8)

  /** A position on the normalised axes, as a device pixel. */
  function Plot(steep: bool, major: u8, minor: u8): Point
  {
    if steep then Point(minor, major) else Point(major, minor)
  }

  /** The endpoints as draw_line normalises them. */
  function Normalize(x0: u8, y0: u8, x1: u8, y1: u8): (n: Norm)
    ensures n.x0 <= n.x1 && Dist(n.y0, n.y1) <= n.x1 - n.x0
    ensures n.steep <==> Dist(y0, y1) > Dist(x0, x1)
    ensures (Plot(n.steep, n.x0, n.y0) == Point(x0, y0) && Plot(n.steep, n.x1, n.y1) == Point(x1, y1))
            || (Plot(n.steep, n.x0, n.y0) == Point(x1, y1) && Plot(n.steep, n.x1, n.y1) == Point(x0, y0))
  {
    var steep := Dist(y0, y1) > Dist(x0, x1);
    var a0 := if steep then y0 else x0;
    var b0 := if steep then x0 else y0;
    var a1 := if steep then y1 else x1;
    var b1 := if steep then x1 else y1;
    if a0 > a1 then Norm(steep, a1, b1, a0, b0) else Norm(steep, a0, b0, a1, b1)
  }

  /** The position of p along the major axis. */
  function Major(steep: bool, p: Point): u8
  {
    if steep then p.y else p.x
  }

  /** The position of p along the minor axis. */
  function Minor(steep: bool, p: Point): u8
  {
    if steep then p.x else p.y
  }

  /**
   * Minor coordinate b at step i is on the ideal line: between the
   * endpoints, and its offset from y0 is within half a pixel of
   * i * dy / dx.
   */
  predicate OnLine(n: Norm, i: nat, b: int)
  {
    var dx := n.x1 - n.x0;
    var dy := Dist(n.y0, n.y1);
    Between(b, n.y0, n.y1) && -dx <= 2 * (Mul(Dist(b, n.y0), dx) - Mul(i, dy)) <= dx
  }

  /**
   * a * b by repeated addition. The line proofs state their products
   * with it so that the solver meets a product only where a proof asks
   * for one through MulIs.
   */
  function Mul(a: nat, b: int): int
  {
    if a == 0 then 0 else Mul(a - 1, b) + b
  }

  /** Mul is multiplication. */
  lemma {:induction false} MulIs(a: nat, b: int)
    ensures Mul(a, b) == a * b
  {
    if a > 0 {
      MulIs(a - 1, b);
      assert (a - 1) * b + b == a * b;
    }
  }

  /** m * dx within half of dx of dx * dy means m == dy. */
  lemma HalfPixel(m: int, dx: int, dy: int)
    requires 0 <= m && 0 <= dy && 0 < dx && -dx <= 2 * (m * dx - dx * dy) <= dx
    ensures m == dy
  {
    assert (dy + 1) * dx == dy * dx + dx;
    assert (dy - 1) * dx == dy * dx - dx;
    MulLess(m, dy + 1, dx);
    MulLess(dy - 1, m, dx);
  }

  /** Multiplying by a positive number keeps strict order, both ways. */
  lemma MulLess(a: int, b: int, c: int)
    requires 0 < c
    ensures a < b <==> a * c < b * c
  {
    assert b * c - a * c == (b - a) * c;
    if a < b {
      MulAtLeast(b - a, c);
    } else if a > b {
      MulAtLeast(a - b, c);
    }
  }

  /** Below dx steps, the offset accumulated stays at most dy. */
  lemma OffsetBound(m: nat, k: nat, dx: nat, dy: nat, e: int)
    requires 0 < dx && k <= dx && dy <= dx && e < dx && m * dx == k * dy + e
    ensures m <= dy
  {
    MulMono(k, dx, dy);
    if m > dy {
      MulMono(dy + 1, m, dx);
      assert false;
    }
  }

  /** The endpoints of a normalised line decide its first and last pixels. */
  lemma EndsOnLine(n: Norm, b: int)
    requires n.x0 <= n.x1 && Dist(n.y0, n.y1) <= n.x1 - n.x0
    ensures OnLine(n, 0, b) ==> b == n.y0
    ensures OnLine(n, n.x1 - n.x0, b) ==> b == n.y1
  {
    var dx := n.x1 - n.x0;
    var dy := Dist(n.y0, n.y1);
    if dx == 0 {
    } else {
      MulIs(Dist(b, n.y0), dx);
      MulIs(0, dy);
      MulIs(dx, dy);
      if OnLine(n, 0, b) {
        HalfPixel(Dist(b, n.y0), dx, 0);
      }
      if OnLine(n, dx, b) {
        HalfPixel(Dist(b, n.y0), dx, dy);
      }
    }
  }

  /** A normalised line: ordered along the major axis and shallow. */
  predicate Shallow(n: Norm)
  {
    n.x0 <= n.x1 && Dist(n.y0, n.y1) <= n.x1 - n.x0
  }

  /**
   * The loop state of draw_line after k pixels: the minor coordinate b
   * has moved m = |b - y0| steps towards y1, and the error term keeps
   * m * dx - k * dy equal to err - dx / 2 with 0 <= err < dx.
   */
  predicate State(n: Norm, k: nat, b: int, err: int)
  {
    var dx := n.x1 - n.x0;
    var dy := Dist(n.y0, n.y1);
    (n.y0 < n.y1 ==> b >= n.y0) && (n.y0 >= n.y1 ==> b <= n.y0)
    && 0 <= err && (dx > 0 ==> err < dx) && (dx == 0 ==> err == 0 && b == n.y0)
    && Mul(Dist(b, n.y0), dx) == Mul(k, dy) + err - dx / 2
  }

  /** One step of the error term: err -= dy, and on underflow y0 += ystep, err += dx. */
  function Advance(n: Norm, b: int, err: int): (int, int)
  {
    var dx := n.x1 - n.x0;
    var dy := Dist(n.y0, n.y1);
    var ystep := if n.y0 < n.y1 then 1 else -1;
    if err - dy < 0 then (b + ystep, err - dy + dx) else (b, err - dy)
  }

  /** While the line is being drawn the state is on the ideal line. */
  lemma StateOnLine(n: Norm, k: nat, b: int, err: int)
    requires Shallow(n) && State(n, k, b, err) && k <= n.x1 - n.x0
    ensures OnLine(n, k, b)
  {
    var dx := n.x1 - n.x0;
    var dy := Dist(n.y0, n.y1);
    if dx > 0 {
      MulIs(Dist(b, n.y0), dx);
      MulIs(k, dy);
      OffsetBound(Dist(b, n.y0), k, dx, dy, err - dx / 2);
    }
  }

  /** A step keeps the state and moves the minor coordinate by at most one. */
  lemma StateStep(n: Norm, k: nat, b: int, err: int)
    requires Shallow(n) && State(n, k, b, err)
    ensures var (b1, e1) := Advance(n, b, err);
            State(n, k + 1, b1, e1) && Dist(b1, b) <= 1
  {
    var dx := n.x1 - n.x0;
    var dy := Dist(n.y0, n.y1);
    var m := Dist(b, n.y0);
    assert Mul(k + 1, dy) == Mul(k, dy) + dy;
    assert Mul(m + 1, dx) == Mul(m, dx) + dx;
  }

  /**
   * The minor coordinates draw_line plots from step k on, in state
   * (b, err): one per major coordinate up to x1. b is the minor
   * coordinate without 8-bit wrap-around.
   */
  function Minors(n: Norm, k: nat, b: int, err: int): (ms: seq<int>)
    ensures |ms| == if k <= n.x1 - n.x0 then n.x1 - n.x0 + 1 - k else 0
    decreases n.x1 - n.x0 + 1 - k
  {
    if k > n.x1 - n.x0 then []
    else
      var next := Advance(n, b, err);
      [b] + Minors(n, k + 1, next.0, next.1)
  }

  /** Minor coordinates from step k on, all on the ideal line. */
  predicate AllOnLine(n: Norm, k: nat, ms: seq<int>)
  {
    forall i :: 0 <= i < |ms| ==> OnLine(n, k + i, ms[i])
  }

  /** Consecutive minor coordinates differ by at most one. */
  predicate Steady(ms: seq<int>)
  {
    forall i :: 0 < i < |ms| ==> Dist(ms[i], ms[i - 1]) <= 1
  }

  /** From a state on the line, every later minor coordinate is on the ideal line. */
  lemma {:induction false} MinorsOnLine(n: Norm, k: nat, b: int, err: int)
    requires Shallow(n) && k <= n.x1 - n.x0 + 1 && State(n, k, b, err)
    ensures AllOnLine(n, k, Minors(n, k, b, err))
    decreases n.x1 - n.x0 + 1 - k
  {
    if k <= n.x1 - n.x0 {
      StateOnLine(n, k, b, err);
      StateStep(n, k, b, err);
      var next := Advance(n, b, err);
      MinorsOnLine(n, k + 1, next.0, next.1);
      var ms := Minors(n, k, b, err);
      var rest := Minors(n, k + 1, next.0, next.1);
      assert ms == [b] + rest;
      forall i | 1 <= i < |ms|
        ensures OnLine(n, k + i, ms[i])
      {
        assert ms[i] == rest[i - 1];
        assert OnLine(n, (k + 1) + (i - 1), rest[i - 1]);
        assert (k + 1) + (i - 1) == k + i;
      }
    }
  }

  /** From a state on the line, consecutive minor coordinates differ by at most one. */
  lemma {:induction false} MinorsSteps(n: Norm, k: nat, b: int, err: int)
    requires Shallow(n) && State(n, k, b, err)
    ensures Steady(Minors(n, k, b, err))
    decreases n.x1 - n.x0 + 1 - k
  {
    if k <= n.x1 - n.x0 {
      StateStep(n, k, b, err);
      var next := Advance(n, b, err);
      MinorsSteps(n, k + 1, next.0, next.1);
      var ms := Minors(n, k, b, err);
      var rest := Minors(n, k + 1, next.0, next.1);
      assert ms == [b] + rest;
      if |rest| > 0 {
        assert ms[1] == next.0;
      }
      forall i | 1 < i < |ms|
        ensures Dist(ms[i], ms[i - 1]) <= 1
      {
        assert ms[i] == rest[i - 1] && ms[i - 1] == rest[i - 2];
        assert Dist(rest[i - 1], rest[i - 1 - 1]) <= 1;
      }
    }
  }

  /** draw_line only terminates when the normalised x1 is below 255: the 8-bit x0 cannot pass 255. */
  predicate LineTerminates(x0: u8, y0: u8, x1: u8, y1: u8)
  {
    Normalize(x0, y0, x1, y1).x1 < 255
  }

  /**
   * The pixels of a normalised line: one per major coordinate from x0 to
   * x1, starting and ending at the endpoints, each within half a pixel of
   * the ideal line, with the minor coordinate moving by at most one per step.
   */
  predicate LinePixels(n: Norm, ps: seq<Point>)
  {
    n.x0 <= n.x1 && |ps| == n.x1 - n.x0 + 1
    && ps[0] == Plot(n.steep, n.x0, n.y0)
    && ps[|ps| - 1] == Plot(n.steep, n.x1, n.y1)
    && (forall i :: 0 <= i < |ps| ==>
          Major(n.steep, ps[i]) == n.x0 + i && OnLine(n, i, Minor(n.steep, ps[i])))
    && (forall i :: 0 < i < |ps| ==> Dist(Minor(n.steep, ps[i]), Minor(n.steep, ps[i - 1])) <= 1)
  }

  /** The pixels of a line whose minor coordinates are on the ideal line and move by at most one. */
  lemma PixelsOfMinors(n: Norm, ms: seq<int>, ps: seq<Point>)
    requires Shallow(n) && |ms| == |ps| == n.x1 - n.x0 + 1
    requires forall i :: 0 <= i < |ps| ==> ps[i] == Plot(n.steep, n.x0 + i, W(ms[i]))
    requires AllOnLine(n, 0, ms) && Steady(ms)
    ensures LinePixels(n, ps)
  {
    forall i | 0 <= i < |ps|
      ensures Minor(n.steep, ps[i]) == ms[i] && Major(n.steep, ps[i]) == n.x0 + i
    {
      assert OnLine(n, 0 + i, ms[0 + i]);
      PixelOfMinor(n, ms[i], i, ps[i]);
    }
    forall i | 0 < i < |ps|
      ensures Dist(Minor(n.steep, ps[i]), Minor(n.steep, ps[i - 1])) <= 1
    {
      assert Dist(ms[i], ms[i - 1]) <= 1;
    }
    EndsOnLine(n, ms[0]);
    EndsOnLine(n, ms[|ps| - 1]);
  }

  /** The pixel plotted for a minor coordinate on the line sits at that coordinate. */
  lemma PixelOfMinor(n: Norm, m: int, i: nat, p: Point)
    requires n.x0 + i < 256 && Between(m, n.y0, n.y1) && p == Plot(n.steep, n.x0 + i, W(m))
    ensures Minor(n.steep, p) == m && Major(n.steep, p) == n.x0 + i
  {
  }

  /**
   * draw_line, Bresenham's algorithm: one pixel per major coordinate from
   * x0 to x1, starting and ending at the endpoints, each within half a
   * pixel of the ideal line, with the minor coordinate moving by at most
   * one per step.
   */
  method DrawLine(x0: u8, y0: u8, x1: u8, y1: u8) returns (ps: seq<Point>)
    requires LineTerminates(x0, y0, x1, y1)
    ensures LinePixels(Normalize(x0, y0, x1, y1), ps)
  {
    var n := Normalize(x0, y0, x1, y1);
    var err: int := (n.x1 - n.x0) / 2;
    var a: nat := n.x0;
    var b: int := n.y0;
    ghost var ms := Minors(n, 0, b, err);
    MinorsOnLine(n, 0, b, err);
    MinorsSteps(n, 0, b, err);
    ps := [];
    while a <= n.x1
      invariant n.x0 <= a <= n.x1 + 1 && |ps| == a - n.x0
      invariant Minors(n, |ps|, b, err) == ms[|ps|..]
      invariant forall i :: 0 <= i < |ps| ==> ps[i] == Plot(n.steep, n.x0 + i, W(ms[i]))
      decreases n.x1 + 1 - a
    {
      var next := Advance(n, b, err);
      assert ms[|ps|..] == [b] + Minors(n, |ps| + 1, next.0, next.1);
      assert ms[|ps| + 1..] == ms[|ps|..][1..];
      ps := ps + [Plot(n.steep, a, W(b))];
      b, err := next.0, next.1;
      a := a + 1;
    }
    PixelsOfMinors(n, ms, ps);
  }

  /** draw_pixel, where the device does not override it: a one by one fill_rect. */
  method DrawPixel(x: u8, y: u8) returns (ps: seq<Point>)
    ensures ps == [Point(x, y)]
  {
    ps := FillRect(x, y, 1, 1);
    assert ps[0] == Point(W(x + 0 / 1), W(y + 0 % 1));
  }

  /** draw_horizontal_line: a line from (x, y) to (x + length, y) in uint8_t arithmetic. */
  method DrawHorizontalLine(x: u8, y: u8, length: u8) returns (ps: seq<Point>)
    requires LineTerminates(x, y, W(x + length), y)
    ensures x + length < 255 ==>
              |ps| == length + 1 && forall i :: 0 <= i < |ps| ==> ps[i] == Point(x + i, y)
  {
    ps := DrawLine(x, y, W(x + length), y);
    if x + length < 255 {
      forall i | 0 <= i < |ps|
        ensures ps[i] == Point(x + i, y)
      {
        assert OnLine(Normalize(x, y, W(x + length), y), i, ps[i].y);
      }
    }
  }

  /** draw_vertical_line: a line from (x, y) to (x, y + length) in uint8_t arithmetic. */
  method DrawVerticalLine(x: u8, y: u8, length: u8) returns (ps: seq<Point>)
    requires LineTerminates(x, y, x, W(y + length))
    ensures y + length < 255 ==>
              |ps| == length + 1 && forall i :: 0 <= i < |ps| ==> ps[i] == Point(x, y + i)
  {
    ps := DrawLine(x, y, x, W(y + length));
    if y + length < 255 {
      var n := Normalize(x, y, x, W(y + length));
      forall i | 0 <= i < |ps|
        ensures ps[i] == Point(x, y + i)
      {
        assert OnLine(n, i, Minor(n.steep, ps[i]));
      }
    }
  }

  /** Pixel p lies on the outline of the rectangle with corners (x, y) and (x + w, y + h). */
  predicate OnOutline(p: Point, x: int, y: int, w: int, h: int)
  {
    (x <= p.x <= x + w && (p.y == y || p.y == y + h))
    || (y <= p.y <= y + h && (p.x == x || p.x == x + w))
  }

  /**
   * draw_rect: the top edge, the right edge, the left edge and the
   * bottom edge. Without wrap-around the pixels drawn are exactly the
   * outline, corners included.
   */
  method DrawRect(x: u8, y: u8, width: u8, height: u8) returns (ps: seq<Point>)
    requires x + width < 255 && y + height < 255
    ensures |ps| == 2 * (width + 1) + 2 * (height + 1)
    ensures forall i :: 0 <= i < |ps| ==> OnOutline(ps[i], x, y, width, height)
    ensures forall p: Point :: OnOutline(p, x, y, width, height) ==> p in ps
  {
    var top := DrawHorizontalLine(x, y, width);
    var right := DrawVerticalLine(x + width, y, height);
    var left := DrawVerticalLine(x, y, height);
    var bottom := DrawHorizontalLine(x, y + height, width);
    ps := top + right + left + bottom;
    forall p: Point | OnOutline(p, x, y, width, height)
      ensures p in ps
    {
      if p.y == y && x <= p.x <= x + width {
        assert top[p.x - x] == p;
      } else if p.y == y + height && x <= p.x <= x + width {
        assert bottom[p.x - x] == p;
      } else if p.x == x {
        assert left[p.y - y] == p;
      } else {
        assert right[p.y - y] == p;
      }
    }
  }

  // ---- Bitmaps ----

  /** The bytes of one column of a bitmap: one for every eight rows or part of eight. */
  function Rows(height: nat): nat
  {
    (height + 7) / 8
  }

  /** The weight of bit k of a byte, as a table: Pow2 for the eight bit positions. */
  function BitWeight(k: nat): (r: nat)
    requires k < 8
    ensures r == Pow2(k)
  {
    match k
    case 0 => 1
    case 1 => 2
    case 2 => 4
    case 3 => 8
    case 4 => 16
    case 5 => 32
    case 6 => 64
    case _ => 128
  }

  /**
   * The bit of cell (i, j) of a bitmap stored column by column: bit
   * j % 8, least significant first, of byte j / 8 of column i.
   */
  predicate BitOf(bp: seq<u8>, height: nat, i: nat, j: nat)
  {
    var ix := i * Rows(height) + j / 8;
    ix < |bp| && (bp[ix] / BitWeight(j % 8)) % 2 == 1
  }

  /** A call to the device: draw_pixel, or fill_rect of a scaled cell. */
  datatype Draw = Pixel(p: Point) | Fill(x: u8, y: u8, w: u8, h: u8)

  /** The call for a set cell (i, j): a pixel at scale 1, otherwise a scale by scale square. */
  function CellDraw(x: u8, y: u8, scale: u8, i: nat, j: nat): Draw
  {
    if scale == 1 then Pixel(Point(W(x + i), W(y + j)))
    else Fill(W(x + i * scale), W(y + j * scale), scale, scale)
  }

  /** The calls for the set cells among rows 0 .. j - 1 of column i, top down. */
  function ColumnDraws(x: u8, y: u8, bp: seq<u8>, height: nat, scale: u8, i: nat, j: nat): seq<Draw>
  {
    if j == 0 then []
    else ColumnDraws(x, y, bp, height, scale, i, j - 1)
         + (if BitOf(bp, height, i, j - 1) then [CellDraw(x, y, scale, i, j - 1)] else [])
  }

  /** The calls for the set cells of columns 0 .. i - 1, left to right. */
  function BitmapDraws(x: u8, y: u8, bp: seq<u8>, height: nat, scale: u8, i: nat): seq<Draw>
  {
    if i == 0 then []
    else BitmapDraws(x, y, bp, height, scale, i - 1) + ColumnDraws(x, y, bp, height, scale, i - 1, height)
  }

  /** Shifting the byte right once more moves to the next bit. */
  lemma HalveShift(b: nat, r: nat)
    requires r < 7
    ensures (b / BitWeight(r)) / 2 == b / BitWeight(r + 1)
  {
    match r
    case 0 =>
    case 1 =>
    case 2 =>
    case 3 =>
    case 4 =>
    case 5 =>
    case _ =>
  }

  /** Within a byte, the shifted line holds the next row's bit at the bottom. */
  lemma NextBit(b: nat, j: nat, line: int)
    requires line == b / BitWeight(j % 8)
    ensures (j + 1) % 8 != 0 ==> line / 2 == b / BitWeight((j + 1) % 8)
  {
    if (j + 1) % 8 != 0 {
      assert (j + 1) % 8 == j % 8 + 1;
      HalveShift(b, j % 8);
    }
  }

  /** Byte j / 8 of column i is inside the bitmap. */
  lemma ByteInBitmap(i: nat, j: nat, width: nat, height: nat)
    requires i < width && j < height
    ensures i * Rows(height) + j / 8 < width * Rows(height)
  {
    MulMono(i + 1, width, Rows(height));
    assert (i + 1) * Rows(height) == i * Rows(height) + Rows(height);
  }

  /**
   * The inner loop of draw_bitmap for column i, whose bytes start at
   * base: a new byte every eight rows, bits used least significant first.
   */
  method DrawColumn(x: u8, y: u8, bp: seq<u8>, width: u8, height: u8, scale: u8, i: nat, base: nat)
    returns (ds: seq<Draw>)
    requires |bp| >= width * Rows(height) && i < width && base == i * Rows(height)
    ensures ds == ColumnDraws(x, y, bp, height, scale, i, height)
  {
    ds := [];
    var p := base;
    var line: int := 0;
    var j := 0;
    while j < height
      invariant 0 <= j <= height
      invariant p == base + (j + 7) / 8
      invariant j % 8 != 0 ==> 0 < p <= |bp| && line == bp[p - 1] / BitWeight(j % 8)
      invariant ds == ColumnDraws(x, y, bp, height, scale, i, j)
    {
      if j % 8 == 0 {
        ByteInBitmap(i, j, width, height);
        line := bp[p];
        p := p + 1;
      }
      CellBit(bp, height, i, j, p - 1, line);
      if line % 2 == 1 {
        ds := ds + [CellDraw(x, y, scale, i, j)];
      }
      NextBit(bp[p - 1], j, line);
      line := line / 2;
      j := j + 1;
    }
  }

  /**
   * draw_bitmap: column by column, a new byte is read every eight rows
   * and its bits used least significant first; the calls are those of
   * the set bits, in column order.
   */
  method DrawBitmap(x: u8, y: u8, bp: seq<u8>, width: u8, height: u8, scale: u8) returns (ds: seq<Draw>)
    requires |bp| >= width * Rows(height)
    ensures ds == BitmapDraws(x, y, bp, height, scale, width)
  {
    ds := [];
    var i := 0;
    while i < width
      invariant 0 <= i <= width
      invariant ds == BitmapDraws(x, y, bp, height, scale, i)
    {
      var column := DrawColumn(x, y, bp, width, height, scale, i, i * Rows(height));
      ds := ds + column;
      i := i + 1;
    }
  }

  /** The bit read for cell (i, j) is the cell's bit. */
  lemma CellBit(bp: seq<u8>, height: nat, i: nat, j: nat, ix: nat, line: int)
    requires ix == i * Rows(height) + j / 8 && ix < |bp| && line == bp[ix] / BitWeight(j % 8)
    ensures line % 2 == 1 <==> BitOf(bp, height, i, j)
  {
  }

  // ---- Polygons and strokes ----

  type i8 = x: int | -128 <= x < 128

  /** A step of a polygon or stroke: a line from the cursor, or a cursor move. */
  datatype Segment = Line(from: Point, to: Point) | Move(to: Point)

  /** Delta pair s of a table is the (0, 0) terminator. */
  predicate IsStop(tab: seq<i8>, s: nat)
  {
    2 * s + 1 < |tab| && tab[2 * s] == 0 && tab[2 * s + 1] == 0
  }

  /** Delta pair s moves the stroke cursor without drawing: both deltas are at most zero. */
  predicate IsMove(tab: seq<i8>, s: nat)
  {
    2 * s + 1 < |tab| && tab[2 * s] <= 0 && tab[2 * s + 1] <= 0
  }

  /** The cursor moved by a scaled delta pair, in uint8_t arithmetic. */
  function Moved(cur: Point, dx: int, dy: int, scale: u8): Point
  {
    Point(W(cur.x + dx * scale), W(cur.y + dy * scale))
  }

  /**
   * The segments of draw_poly_P from delta pair s on: each pair draws a
   * line from the cursor to the cursor plus the scaled pair, which
   * becomes the cursor, until the (0, 0) pair. None when the table ends
   * before a terminator, where the source reads past the table. A result
   * ends at the first terminator from s on, and every segment is a line.
   */
  function PolyFrom(tab: seq<i8>, s: nat, scale: u8, cur: Point): (r: Option<seq<Segment>>)
    ensures r.Some? ==> IsStop(tab, s + |r.value|) && NoStopBetween(tab, s, s + |r.value|)
    ensures r.Some? ==> forall i :: 0 <= i < |r.value| ==> r.value[i].Line?
    ensures r.None? ==> NoStopBetween(tab, s, |tab|)
    decreases |tab| - 2 * s
  {
    if 2 * s + 1 >= |tab| then None
    else if tab[2 * s] == 0 && tab[2 * s + 1] == 0 then Some([])
    else
      var to := Moved(cur, tab[2 * s], tab[2 * s + 1], scale);
      match PolyFrom(tab, s + 1, scale, to)
      case None => None
      case Some(rest) => Some([Line(cur, to)] + rest)
  }

  /** draw_poly_P: nothing at scale 0, otherwise the segments from the first pair. */
  function Poly(tab: seq<i8>, scale: u8, cur: Point): Option<seq<Segment>>
  {
    if scale == 0 then Some([]) else PolyFrom(tab, 0, scale, cur)
  }

  /**
   * The segments of draw_stroke_P from delta pair s on: a pair with both
   * deltas at most zero moves the cursor, any other draws a line to the
   * moved cursor, until the (0, 0) pair. A result ends at the first
   * terminator from s on; None when the table ends before one.
   */
  function StrokeFrom(tab: seq<i8>, s: nat, scale: u8, cur: Point): (r: Option<seq<Segment>>)
    ensures r.Some? ==> IsStop(tab, s + |r.value|) && NoStopBetween(tab, s, s + |r.value|)
    ensures r.None? ==> NoStopBetween(tab, s, |tab|)
    decreases |tab| - 2 * s
  {
    if 2 * s + 1 >= |tab| then None
    else if tab[2 * s] == 0 && tab[2 * s + 1] == 0 then Some([])
    else
      var to := Moved(cur, tab[2 * s], tab[2 * s + 1], scale);
      var seg := if tab[2 * s] <= 0 && tab[2 * s + 1] <= 0 then Move(to) else Line(cur, to);
      match StrokeFrom(tab, s + 1, scale, to)
      case None => None
      case Some(rest) => Some([seg] + rest)
  }

  /** A path of segments: each starts where the previous one ended. */
  predicate Chained(cur: Point, segs: seq<Segment>)
  {
    (forall i :: 0 <= i < |segs| && segs[i].Line? ==> segs[i].from == (if i == 0 then cur else segs[i - 1].to))
  }

  /** No terminator among pairs s .. t - 1. */
  predicate NoStopBetween(tab: seq<i8>, s: nat, t: nat)
  {
    forall u :: s <= u < t ==> !IsStop(tab, u)
  }

  /**
   * draw_poly_P stops at the first (0, 0) pair t: one line per pair
   * before it, each from the end of the previous one.
   */
  lemma {:induction false} PolyStops(tab: seq<i8>, s: nat, t: nat, scale: u8, cur: Point)
    requires s <= t && IsStop(tab, t) && NoStopBetween(tab, s, t)
    ensures PolyFrom(tab, s, scale, cur).Some?
    ensures var segs := PolyFrom(tab, s, scale, cur).value;
            |segs| == t - s && Chained(cur, segs)
            && forall i :: 0 <= i < |segs| ==> segs[i].Line?
    decreases t - s
  {
    if s < t {
      assert !IsStop(tab, s);
      var to := Moved(cur, tab[2 * s], tab[2 * s + 1], scale);
      PolyStops(tab, s + 1, t, scale, to);
      var rest := PolyFrom(tab, s + 1, scale, to).value;
      var segs := PolyFrom(tab, s, scale, cur).value;
      assert segs == [Line(cur, to)] + rest;
      forall i | 1 <= i < |segs| && segs[i].Line?
        ensures segs[i].from == segs[i - 1].to
      {
        assert segs[i] == rest[i - 1];
        if i > 1 {
          assert segs[i - 1] == rest[i - 2];
        }
      }
    }
  }

  /** At scale 0, draw_poly_P draws nothing, whatever the table. */
  lemma PolyScaleZero(tab: seq<i8>, cur: Point)
    ensures Poly(tab, 0, cur) == Some([])
  {
  }

  /**
   * draw_stroke_P stops at the first (0, 0) pair t: one segment per pair
   * before it, a move exactly for the pairs with both deltas at most
   * zero, and each line starting at the cursor left by the segment
   * before.
   */
  lemma {:induction false} StrokeStops(tab: seq<i8>, s: nat, t: nat, scale: u8, cur: Point)
    requires s <= t && IsStop(tab, t) && NoStopBetween(tab, s, t)
    ensures StrokeFrom(tab, s, scale, cur).Some?
    ensures var segs := StrokeFrom(tab, s, scale, cur).value;
            |segs| == t - s && Chained(cur, segs)
            && forall i :: 0 <= i < |segs| ==> (segs[i].Move? <==> IsMove(tab, s + i))
    decreases t - s
  {
    if s < t {
      assert !IsStop(tab, s);
      var to := Moved(cur, tab[2 * s], tab[2 * s + 1], scale);
      StrokeStops(tab, s + 1, t, scale, to);
      var rest := StrokeFrom(tab, s + 1, scale, to).value;
      var segs := StrokeFrom(tab, s, scale, cur).value;
      assert segs[1..] == rest;
      assert segs[0].to == to;
      forall i | 1 <= i < |segs|
        ensures (segs[i].Move? <==> IsMove(tab, s + i))
        ensures segs[i].Line? ==> segs[i].from == segs[i - 1].to
      {
        assert segs[i] == rest[i - 1];
        assert IsMove(tab, (s + 1) + (i - 1)) <==> rest[i - 1].Move?;
        if i > 1 {
          assert segs[i - 1] == rest[i - 2];
        }
      }
    }
  }

}
