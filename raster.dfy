/** The raster side of the renderer: an RGB pixel buffer, the hard-edged
    integer line plotter that the animation loop calls for every contour
    segment, and the per-frame fade of the whole buffer towards white.
    The buffer is `H` rows of `W` pixels; pixel `(x, y)` is `img[y, x]`. */
module Raster {
  import opened Arith

  newtype u8 = v: int | 0 <= v < 256

  datatype Rgb = Rgb(r: u8, g: u8, b: u8)

  const I32_MIN: int := -0x8000_0000
  const I32_MAX: int := 0x7fff_ffff

  predicate IsI32(v: int) {
    I32_MIN <= v <= I32_MAX
  }

  /** Floor square root of a non-negative integer: the largest `r` with
      `r * r <= n`. */
  function ISqrt(n: nat): (r: nat)
    ensures r * r <= n < (r + 1) * (r + 1)
  {
    if n == 0 then 0
    else
      var q := ISqrt(n / 4);
      SqrtDouble(n, q);
      if (2 * q + 1) * (2 * q + 1) <= n then 2 * q + 1 else 2 * q
  }

  lemma SqrtDouble(n: nat, q: nat)
    requires q * q <= n / 4 < (q + 1) * (q + 1)
    ensures (2 * q) * (2 * q) <= n < (2 * q + 2) * (2 * q + 2)
  {
    assert (2 * q) * (2 * q) == 4 * (q * q);
    assert (2 * q + 2) * (2 * q + 2) == 4 * ((q + 1) * (q + 1));
  }

  /** Integer division rounding toward zero, as `/` on `i32` does; the
      magnitude of the quotient is the floor of the magnitudes' quotient and
      its sign is the product of the operands' signs. */
  function TruncDiv(n: int, d: int): (q: int)
    requires d != 0
    ensures Abs(q) * Abs(d) <= Abs(n) < (Abs(q) + 1) * Abs(d)
    ensures q > 0 ==> (n > 0) == (d > 0)
    ensures q < 0 ==> (n > 0) != (d > 0)
  {
    var m := Abs(n) / Abs(d);
    DivBounds(Abs(n), Abs(d));
    if (n >= 0) == (d > 0) then m else -m
  }

  /** By a positive divisor: the floor quotient of the magnitude, negated
      for a negative dividend. */
  lemma TruncDivByPositive(n: int, d: int)
    requires d > 0
    ensures n >= 0 ==> TruncDiv(n, d) == n / d
    ensures n < 0 ==> TruncDiv(n, d) == -((-n) / d)
  {
  }

  /** Truncation and Euclidean division part ways on a negative dividend. */
  lemma TruncDivExample()
    ensures TruncDiv(-7, 2) == -3 && -7 / 2 == -4
    ensures TruncDiv(7, -2) == -3 && 7 / -2 == -3
  {
  }

  /** Squared distance between the two endpoints. */
  function DistSq(x1: int, y1: int, x2: int, y2: int): (n: nat)
    ensures n == 0 <==> x1 == x2 && y1 == y2
    ensures Abs(x2 - x1) * Abs(x2 - x1) <= n && Abs(y2 - y1) * Abs(y2 - y1) <= n
  {
    var dx, dy := x1 - x2, y1 - y2;
    Square(dx);
    Square(dy);
    assert Abs(x2 - x1) == Abs(dx) && Abs(y2 - y1) == Abs(dy);
    dx * dx + dy * dy
  }

  /** The number of steps the plotter takes: the integer length. It is
      zero exactly for a single-pixel line and never shorter than either
      coordinate difference. */
  function LineLen(x1: int, y1: int, x2: int, y2: int): (len: nat)
    ensures len == 0 <==> x1 == x2 && y1 == y2
    ensures Abs(x2 - x1) <= len && Abs(y2 - y1) <= len
  {
    var n := DistSq(x1, y1, x2, y2);
    var r := ISqrt(n);
    RootBound(Abs(x2 - x1), n, r);
    RootBound(Abs(y2 - y1), n, r);
    Square(r);
    r
  }

  /** A number whose square is at most `n` is at most the floor root. */
  lemma RootBound(d: nat, n: nat, r: nat)
    requires d * d <= n < (r + 1) * (r + 1)
    ensures d <= r
  {
    if d > r {
      SquareMonotone(r + 1, d);
    }
  }

  /** The pixel of step `t` out of `len`: step `0` is the start point and
      step `len` the end point. */
  function PlotAt(x1: int, y1: int, x2: int, y2: int, len: nat, t: int): (p: (int, int))
    requires len > 0
    ensures t == 0 ==> p == (x1, y1)
    ensures t == len ==> p == (x2, y2)
  {
    StepEnds(x2 - x1, len);
    StepEnds(y2 - y1, len);
    (x1 + TruncDiv((x2 - x1) * t, len), y1 + TruncDiv((y2 - y1) * t, len))
  }

  /** The pixels the plotter writes, in order: the start pixel alone for a
      zero-length line, otherwise one pixel for each step `0 .. len`. The
      first is the start point and the last the end point. */
  function Plotted(x1: int, y1: int, x2: int, y2: int): (ps: seq<(int, int)>)
    ensures |ps| == LineLen(x1, y1, x2, y2) + 1
    ensures ps[0] == (x1, y1) && ps[|ps| - 1] == (x2, y2)
  {
    var len := LineLen(x1, y1, x2, y2);
    if len == 0 then [(x1, y1)]
    else seq(len + 1, t requires 0 <= t <= len => PlotAt(x1, y1, x2, y2, len, t))
  }

  predicate InImage(img: array2<Rgb>, x: int, y: int) {
    0 <= x < img.Length1 && 0 <= y < img.Length0
  }

  /** Overwrites every pixel of `Plotted` with `color`; every other pixel
      keeps its value. The endpoints must be pixels of the buffer and the
      squared length must fit in `i32`; then no intermediate value
      overflows `i32` and every pixel written is inside the buffer. */
  method DrawLine(color: Rgb, x1: int, y1: int, x2: int, y2: int, img: array2<Rgb>)
    requires InImage(img, x1, y1) && InImage(img, x2, y2)
    requires IsI32(x1) && IsI32(y1) && IsI32(x2) && IsI32(y2)
    requires IsI32(DistSq(x1, y1, x2, y2))
    modifies img
    ensures forall y, x :: 0 <= y < img.Length0 && 0 <= x < img.Length1 ==>
      img[y, x] == if (x, y) in Plotted(x1, y1, x2, y2) then color else old(img[y, x])
  {
    var len := ISqrt(DistSq(x1, y1, x2, y2));
    assert len == LineLen(x1, y1, x2, y2);
    ghost var pixels := Plotted(x1, y1, x2, y2);
    if len == 0 {
      assert pixels == [(x1, y1)];
      img[y1, x1] := color;
    } else {
      for t := 0 to len + 1
        invariant forall y, x :: 0 <= y < img.Length0 && 0 <= x < img.Length1 ==>
          img[y, x] == if (x, y) in pixels[..t] then color else old(img[y, x])
      {
        var x, y := StepPixel(x1, y1, x2, y2, len, t, img);
        img[y, x] := color;
        assert pixels[..t + 1] == pixels[..t] + [(x, y)];
      }
      assert pixels[..len + 1] == pixels;
    }
  }

  /** The pixel of step `t`, computed with `i32` arithmetic as the loop
      body of `DrawLine` does: no product overflows, and the pixel is the
      `t`-th plotted one and lies inside the buffer. */
  method StepPixel(x1: int, y1: int, x2: int, y2: int, len: nat, t: int, img: array2<Rgb>) returns (x: int, y: int)
    requires InImage(img, x1, y1) && InImage(img, x2, y2)
    requires IsI32(DistSq(x1, y1, x2, y2))
    requires len == LineLen(x1, y1, x2, y2) && len > 0 && 0 <= t <= len
    ensures (x, y) == Plotted(x1, y1, x2, y2)[t]
    ensures InImage(img, x, y)
  {
    PlotStep(x1, y1, x2, y2, len, t);
    assert IsI32((x2 - x1) * t) && IsI32((y2 - y1) * t);
    x := x1 + TruncDiv((x2 - x1) * t, len);
    y := y1 + TruncDiv((y2 - y1) * t, len);
  }

  /** Step `t` of a line: its products fit `i32` when the squared length
      does, it is the `t`-th plotted pixel, and it lies between the
      endpoints. */
  lemma PlotStep(x1: int, y1: int, x2: int, y2: int, len: nat, t: int)
    requires len == LineLen(x1, y1, x2, y2) && len > 0 && 0 <= t <= len
    ensures IsI32(DistSq(x1, y1, x2, y2)) ==> IsI32((x2 - x1) * t) && IsI32((y2 - y1) * t)
    ensures Plotted(x1, y1, x2, y2)[t] == PlotAt(x1, y1, x2, y2, len, t)
    ensures Between(x1, PlotAt(x1, y1, x2, y2, len, t).0, x2)
    ensures Between(y1, PlotAt(x1, y1, x2, y2, len, t).1, y2)
  {
    var n := DistSq(x1, y1, x2, y2);
    assert len * len <= n;
    if IsI32(n) {
      NoOverflow(x2 - x1, len, t, n);
      NoOverflow(y2 - y1, len, t, n);
    }
    StepBetween(x2 - x1, len, t);
    StepBetween(y2 - y1, len, t);
  }

  /** `delta * t` stays within `i32` when `|delta| <= len`, `t <= len` and
      `len * len` is at most an `i32` value. */
  lemma NoOverflow(delta: int, len: nat, t: int, n: nat)
    requires Abs(delta) <= len && 0 <= t <= len && len * len <= n && IsI32(n)
    ensures IsI32(delta * t)
  {
    MulMonotone(Abs(delta), len, t);
    MulMonotone(t, len, len);
    assert Abs(delta * t) == Abs(delta) * t;
  }

  /** Step `t` of `len` moves a coordinate by a part of `delta` with the
      same sign and no larger magnitude. */
  lemma StepBetween(delta: int, len: nat, t: int)
    requires Abs(delta) <= len && 0 <= t <= len && len > 0
    ensures var s := TruncDiv(delta * t, len);
      (delta >= 0 ==> 0 <= s <= delta) && (delta < 0 ==> delta <= s <= 0)
  {
    var a := Abs(delta);
    ScaledQuotient(a, t, len);
    TruncDivByPositive(delta * t, len);
    MagnitudeTimes(delta, t);
  }

  /** `delta * t` is `|delta| * t` with the sign of `delta`. */
  lemma MagnitudeTimes(delta: int, t: int)
    requires t >= 0
    ensures delta >= 0 ==> delta * t == Abs(delta) * t
    ensures delta < 0 ==> delta * t == -(Abs(delta) * t)
    ensures Abs(delta) * t >= 0
  {
    MulNonNeg(Abs(delta), t);
  }

  /** Step `0` is the start pixel and step `len` the end pixel. */
  lemma StepEnds(delta: int, len: nat)
    requires len > 0
    ensures TruncDiv(delta * 0, len) == 0
    ensures TruncDiv(delta * len, len) == delta
  {
    var a := Abs(delta);
    TruncDivByPositive(delta * len, len);
    MagnitudeTimes(delta, len);
    MulDiv(a, len);
  }

  /** Consecutive steps move each coordinate by at most one pixel. */
  lemma StepAdjacent(delta: int, len: nat, t: int)
    requires Abs(delta) <= len && 0 <= t < len
    ensures -1 <= TruncDiv(delta * (t + 1), len) - TruncDiv(delta * t, len) <= 1
  {
    var a := Abs(delta);
    AdjacentQuotients(a, t, len);
    TruncDivByPositive(delta * t, len);
    TruncDivByPositive(delta * (t + 1), len);
    MagnitudeTimes(delta, t);
    MagnitudeTimes(delta, t + 1);
  }

  // ---------------------------------------------------------------------
  // What the plotted pixels are.

  /** Every plotted pixel lies in the bounding box of the endpoints. */
  lemma PlottedInBox(x1: int, y1: int, x2: int, y2: int)
    ensures forall p <- Plotted(x1, y1, x2, y2) ::
      Between(x1, p.0, x2) && Between(y1, p.1, y2)
  {
    var len := LineLen(x1, y1, x2, y2);
    if len > 0 {
      forall t | 0 <= t <= len
        ensures Between(x1, PlotAt(x1, y1, x2, y2, len, t).0, x2)
        ensures Between(y1, PlotAt(x1, y1, x2, y2, len, t).1, y2)
      {
        StepBetween(x2 - x1, len, t);
        StepBetween(y2 - y1, len, t);
      }
    }
  }

  predicate Between(a: int, v: int, b: int) {
    (a <= v <= b) || (b <= v <= a)
  }

  /** Consecutive plotted pixels touch (they differ by at most one in each
      coordinate), so the line has no gaps. */
  lemma PlottedConnected(x1: int, y1: int, x2: int, y2: int)
    ensures var p := Plotted(x1, y1, x2, y2);
      forall i :: 0 <= i < |p| - 1 ==> -1 <= p[i + 1].0 - p[i].0 <= 1 && -1 <= p[i + 1].1 - p[i].1 <= 1
  {
    var len := LineLen(x1, y1, x2, y2);
    if len > 0 {
      forall t | 0 <= t < len
        ensures -1 <= PlotAt(x1, y1, x2, y2, len, t + 1).0 - PlotAt(x1, y1, x2, y2, len, t).0 <= 1
        ensures -1 <= PlotAt(x1, y1, x2, y2, len, t + 1).1 - PlotAt(x1, y1, x2, y2, len, t).1 <= 1
      {
        StepAdjacent(x2 - x1, len, t);
        StepAdjacent(y2 - y1, len, t);
      }
    }
  }

  // ---------------------------------------------------------------------
  // The per-frame fade.

  const FADE_STEP: u8 := 40

  /** Addition that stops at 255 instead of wrapping. */
  function SaturatingAdd(c: u8, d: u8): (r: u8)
    ensures c <= r && r as int <= c as int + d as int
    ensures r == 255 || r as int == c as int + d as int
  {
    if c as int + d as int > 255 then 255 else c + d
  }

  /** One fade of a pixel: no channel darkens, and only white is left
      unchanged. */
  function Faded(p: Rgb): (q: Rgb)
    ensures p.r <= q.r && p.g <= q.g && p.b <= q.b
    ensures q == p <==> p == Rgb(255, 255, 255)
  {
    Rgb(SaturatingAdd(p.r, FADE_STEP), SaturatingAdd(p.g, FADE_STEP), SaturatingAdd(p.b, FADE_STEP))
  }

  /** Lightens every channel of every pixel by `FADE_STEP`, saturating. */
  method Fade(img: array2<Rgb>)
    modifies img
    ensures forall y, x :: 0 <= y < img.Length0 && 0 <= x < img.Length1 ==>
      img[y, x] == Faded(old(img[y, x]))
  {
    for y := 0 to img.Length0
      invariant forall j, i :: 0 <= j < y && 0 <= i < img.Length1 ==> img[j, i] == Faded(old(img[j, i]))
      invariant forall j, i :: y <= j < img.Length0 && 0 <= i < img.Length1 ==> img[j, i] == old(img[j, i])
    {
      for x := 0 to img.Length1
        invariant forall j, i :: 0 <= j < y && 0 <= i < img.Length1 ==> img[j, i] == Faded(old(img[j, i]))
        invariant forall i :: 0 <= i < x ==> img[y, i] == Faded(old(img[y, i]))
        invariant forall j, i :: y <= j < img.Length0 && 0 <= i < img.Length1 && (j > y || i >= x) ==>
          img[j, i] == old(img[j, i])
      {
        img[y, x] := Faded(img[y, x]);
      }
    }
  }

  /** A channel after `k` fades. */
  function FadedChannel(c: u8, k: nat): u8 {
    if k == 0 then c else SaturatingAdd(FadedChannel(c, k - 1), FADE_STEP)
  }

  /** Each fade lightens a channel by `FADE_STEP` until it reaches 255. */
  lemma {:induction false} FadedChannelExact(c: u8, k: nat)
    ensures FadedChannel(c, k) as int == if c as int + 40 * k >= 255 then 255 else c as int + 40 * k
  {
    if k > 0 {
      FadedChannelExact(c, k - 1);
    }
  }

  /** Seven frames of fading turn any pixel white: what is drawn in one
      frame is gone seven frames later. */
  lemma FadeToWhite(c: u8)
    ensures FadedChannel(c, 7) == 255
  {
    FadedChannelExact(c, 7);
  }
}
