/** Integer colour-space conversions on 8-bit channels (src/color_format.rs).

    Every conversion is a straight-line computation in `usize` or `i32`
    arithmetic. Both widths are wide enough for every intermediate value here
    (the largest is 255 * 255 * 255, below 2^24), so they are modelled by
    unbounded integers; what the model does write out is each place where the
    Rust code could go wrong on a narrow type. Every unsigned subtraction is
    bound to a `nat`, so the verifier proves it never goes below zero (in Rust
    it would panic or wrap), and every `as u8` cast goes through `AsU8`. */
module ColorFormat {

  /** An 8-bit channel value (`u8`). */
  type Byte = x: int | 0 <= x < 256

  datatype Rgb = Rgb(r: Byte, g: Byte, b: Byte)
  datatype Hsv = Hsv(h: Byte, s: Byte, v: Byte)
  datatype Yuv = Yuv(y: Byte, u: Byte, v: Byte)

  // ---------------------------------------------------------------------
  // Machine operations

  /** `x as u8`: keeps the low eight bits. For a negative `i32` this is the
      two's-complement low byte, which is what Dafny's `%` (never negative)
      computes. */
  function AsU8(x: int): (r: Byte)
    ensures 0 <= x < 256 ==> r == x
    ensures (x - r) % 256 == 0
  {
    x % 256
  }

  /** `x >> 8` on `i32`: an arithmetic shift, that is, a division by 256
      rounded toward negative infinity. */
  function Shr8(x: int): (r: int)
    ensures r * 256 <= x < r * 256 + 256
  {
    x / 256
  }

  /** `min(max(x, 0), 255) as u8`, the `to_u8` helper of `yuv_to_rgb`. */
  function Clamp(x: int): (r: Byte)
    ensures 0 <= x <= 255 ==> r == x
    ensures x < 0 ==> r == 0
    ensures x > 255 ==> r == 255
  {
    AsU8(if x < 0 then 0 else if x > 255 then 255 else x)
  }

  function Max3(a: int, b: int, c: int): int
  {
    if a >= b && a >= c then a else if b >= c then b else c
  }

  function Min3(a: int, b: int, c: int): int
  {
    if a <= b && a <= c then a else if b <= c then b else c
  }

  predicate IsGrey(c: Rgb)
  {
    c.r == c.g == c.b
  }

  // ---------------------------------------------------------------------
  // Arithmetic facts about the floor divisions used below

  lemma MulLtCancel(a: int, b: int, n: int)
    requires 0 < n && a * n < b * n
    ensures a < b
  {
  }

  lemma DivMono(p: nat, q: nat, n: nat)
    requires 0 < n && p <= q
    ensures p / n <= q / n
  {
    var a, b := p / n, q / n;
    assert a * n <= p;
    assert q < (b + 1) * n;
    MulLtCancel(a, b + 1, n);
  }

  /** Scaling `x` by a fraction `num / den` that is at most one never grows it. */
  lemma ScaleLe(x: nat, num: nat, den: nat)
    requires 0 < den && num <= den
    ensures x * num / den <= x
  {
    var q := x * num / den;
    assert x * den - x * num == x * (den - num) >= 0;
    assert q * den <= x * num < (x + 1) * den;
    MulLtCancel(q, x + 1, den);
  }

  /** When `y` exceeds `x` by at most `n`, their 255/n-scaled quotients differ by
      less than 256. */
  lemma QuotGap(x: nat, y: nat, n: nat)
    requires 0 < n && y <= x + n
    ensures y * 255 / n <= x * 255 / n + 255
  {
    var a, c := x * 255 / n, y * 255 / n;
    assert x * 255 < (a + 1) * n;
    assert c * n <= y * 255 <= x * 255 + n * 255;
    assert c * n < (a + 256) * n;
    MulLtCancel(c, a + 256, n);
  }

  /** A whole sextant step (`s * (255 - f)` or `s * f` with the factor at most
      255) never darkens a channel below the fully desaturated level. */
  lemma RampAtLeastDim(v: nat, s: nat, t: nat)
    requires s <= 255 && t <= 255
    ensures v * (255 - s) / 255 <= v * (65025 - s * t) / 65025
  {
    var a := v * (255 - s);
    assert s * t <= s * 255;
    assert a * 255 <= v * (65025 - s * t);
    DivMono(a * 255, v * (65025 - s * t), 65025);
    var q := a / 255;
    assert a == q * 255 + a % 255;
    assert a * 255 == q * 65025 + (a % 255) * 255;
    assert (a * 255) / 65025 == q;
  }

  /** A spread `n` of at most `m`, scaled by 255 / m, stays within 0..255 and is
      zero only when the spread is. */
  lemma SpreadScale(n: nat, m: nat)
    requires 0 < m <= 255 && n <= m
    ensures n * 255 / m <= 255
    ensures n * 255 / m == 0 <==> n == 0
  {
    ScaleLe(255, n, m);
    var q := n * 255 / m;
    assert n * 255 < (q + 1) * m;
    if 0 < n {
      assert 1 * m <= 255 <= n * 255;
      MulLtCancel(1, q + 1, m);
    }
  }

  // ---------------------------------------------------------------------
  // rgb_to_hsv

  /** The saturation `s` before its cast, (max - min) scaled by 255 / max. */
  function Saturation(c: Rgb): (s: nat)
    ensures s <= 255
    ensures s == 0 <==> Max3(c.r, c.g, c.b) == Min3(c.r, c.g, c.b)
  {
    var mx, mn := Max3(c.r, c.g, c.b), Min3(c.r, c.g, c.b);
    var n: nat := mx - mn;
    if mx == 0 then 0
    else
      SpreadScale(n, mx);
      n * 255 / mx
  }

  /** `base * 255 + x * 255 / n - y * 255 / n`, the hue formula of the sextant
      pair whose brightest channel is neither `x` nor `y`, evaluated left to
      right in `usize`: `x` and `y` lie within `n` of each other, so the
      subtraction never underflows. */
  function HueArc(base: nat, x: nat, y: nat, n: nat): (t: nat)
    requires 1 <= base && 0 < n && y <= x + n && x <= y + n
    ensures t <= base * 255 + 255
    ensures x <= y ==> t <= base * 255
  {
    QuotGap(x, y, n);
    QuotGap(y, x, n);
    assert x <= y ==> x * 255 / n <= y * 255 / n by {
      if x <= y { DivMono(x * 255, y * 255, n); }
    }
    base * 255 + x * 255 / n - y * 255 / n
  }

  /** `d * 255 / n`, the hue formula of the first sextant (red brightest,
      green at least blue), where `d = g - b` is at most the spread `n`. */
  function HueRise(d: nat, n: nat): (t: nat)
    requires 0 < n && d <= n
    ensures t <= 255
  {
    ScaleLe(255, d, n);
    d * 255 / n
  }

  /** The hue `h` before its cast: the position on the six-sextant colour wheel,
      measured in 1/255 of a sextant and divided by six. */
  function Hue(c: Rgb): (h: nat)
    ensures h <= 255
    ensures Max3(c.r, c.g, c.b) == Min3(c.r, c.g, c.b) ==> h == 0
  {
    var r, g, b := c.r as nat, c.g as nat, c.b as nat;
    var mx, mn := Max3(r, g, b), Min3(r, g, b);
    var n: nat := mx - mn;
    if n == 0 then 0 / 6
    else if mx == r then
      if g < b then HueArc(6, g, b, n) / 6
      else HueRise(g - b, n) / 6
    else if mx == g then HueArc(2, b, r, n) / 6
    else HueArc(4, r, g, n) / 6
  }

  /** `rgb_to_hsv`: `v` is the brightest channel, `s` and `h` are computed in
      `usize` and cast to `u8` at the end; the casts lose nothing. */
  function RgbToHsv(c: Rgb): (res: Hsv)
    ensures res.v == Max3(c.r, c.g, c.b)
    ensures res.h == Hue(c) && res.s == Saturation(c)
    ensures res.s == 0 <==> IsGrey(c)
    ensures IsGrey(c) ==> res.h == 0
    ensures Max3(c.r, c.g, c.b) == 0 ==> res.s == 0
  {
    Hsv(AsU8(Hue(c)), AsU8(Saturation(c)), AsU8(Max3(c.r, c.g, c.b)))
  }

  // ---------------------------------------------------------------------
  // hsv_to_rgb

  /** `x * (255 - s) / 255`: the channel that a sextant darkens all the way. */
  function Dim(x: Byte, s: Byte): (r: Byte)
    ensures r <= x
    ensures s == 0 ==> r == x
  {
    var k: nat := 255 - s;
    ScaleLe(x, k, 255);
    x * k / 255
  }

  /** `x * (255 * 255 - s * t) / (255 * 255)`: the channel that moves across a
      sextant, where `t` is the position `f` in the sextant or `255 - f`. */
  function Ramp(x: Byte, s: Byte, t: nat): (r: Byte)
    requires t <= 255
    ensures Dim(x, s) <= r <= x
  {
    assert s * t <= s * 255 <= 255 * 255;
    var k: nat := 255 * 255 - s * t;
    ScaleLe(x, k, 255 * 255);
    RampAtLeastDim(x, s, t);
    x * k / (255 * 255)
  }

  /** `h6 / 255` with `h6 = h * 6`: which of the six sextants `h` falls in. Only
      `h = 255` reaches the value 6, which wraps round to the first sextant. */
  function Sextant(h: Byte): (k: nat)
    ensures k <= 6
    ensures k == 6 <==> h == 255
  {
    h * 6 / 255
  }

  /** `hsv_to_rgb`: with zero saturation every channel is `v`; otherwise the
      sextant decides which channel stays at `v`, which one is darkened to
      `Dim(v, s)` and which one ramps between the two. */
  function HsvToRgb(c: Hsv): (res: Rgb)
    ensures c.s == 0 ==> res == Rgb(c.v, c.v, c.v)
    ensures res.r <= c.v && res.g <= c.v && res.b <= c.v
    ensures Max3(res.r, res.g, res.b) == c.v
    ensures Min3(res.r, res.g, res.b) == Dim(c.v, c.s)
  {
    if c.s == 0 then Rgb(c.v, c.v, c.v)
    else
      var v, s := c.v, c.s;
      var h6 := c.h * 6;
      var f := h6 % 255;
      match Sextant(c.h)
      case 1 => Rgb(AsU8(Ramp(v, s, f)), AsU8(v), AsU8(Dim(v, s)))
      case 2 => Rgb(AsU8(Dim(v, s)), AsU8(v), AsU8(Ramp(v, s, 255 - f)))
      case 3 => Rgb(AsU8(Dim(v, s)), AsU8(Ramp(v, s, f)), AsU8(v))
      case 4 => Rgb(AsU8(Ramp(v, s, 255 - f)), AsU8(Dim(v, s)), AsU8(v))
      case 5 => Rgb(AsU8(v), AsU8(Dim(v, s)), AsU8(Ramp(v, s, f)))
      case n =>
        // the `debug_assert!` of the fallback arm
        assert n == 0 || n == 6;
        Rgb(AsU8(v), AsU8(Ramp(v, s, 255 - f)), AsU8(Dim(v, s)))
  }

  // ---------------------------------------------------------------------
  // yuv_to_rgb and rgb_to_yuv: the 8-bit studio-range integer form of
  // ITU-R BT.601 (luma 16..235, chroma centred on 128, coefficients scaled by 256)

  /** `yuv_to_rgb`: each `i32` channel is clamped into 0..255 by `to_u8`. */
  function YuvToRgb(c: Yuv): Rgb
  {
    var cc := c.y - 16;
    var d := c.u - 128;
    var e := c.v - 128;
    var r := Shr8(298 * cc + 409 * e + 128);
    var g := Shr8(298 * cc - 100 * d - 208 * e + 128);
    var b := Shr8(298 * cc + 516 * d + 128);
    Rgb(Clamp(r), Clamp(g), Clamp(b))
  }

  /** The luma of `rgb_to_yuv` as the `i32` it is before the cast. */
  function Luma(c: Rgb): (y: int)
    ensures 16 <= y <= 235
  {
    Shr8(66 * c.r + 129 * c.g + 25 * c.b + 128) + 16
  }

  /** The blue-difference chroma of `rgb_to_yuv` before the cast. */
  function ChromaBlue(c: Rgb): (u: int)
    ensures 16 <= u <= 240
  {
    Shr8(-38 * c.r - 74 * c.g + 112 * c.b + 128) + 128
  }

  /** The red-difference chroma of `rgb_to_yuv` before the cast (no rounding
      term, unlike the other two). */
  function ChromaRed(c: Rgb): (v: int)
    ensures 16 <= v <= 239
  {
    Shr8(112 * c.r - 94 * c.g - 18 * c.b) + 128
  }

  /** `rgb_to_yuv`: the casts to `u8` never wrap, so luma stays within the
      studio range 16..235 and chroma within 16..240. */
  function RgbToYuv(c: Rgb): (res: Yuv)
    ensures res.y == Luma(c) && res.u == ChromaBlue(c) && res.v == ChromaRed(c)
    ensures 16 <= res.y <= 235 && 16 <= res.u <= 240 && 16 <= res.v <= 239
  {
    Yuv(AsU8(Luma(c)), AsU8(ChromaBlue(c)), AsU8(ChromaRed(c)))
  }

  // ---------------------------------------------------------------------
  // Compositions

  /** `yuv_to_hsv`: through RGB. */
  function YuvToHsv(c: Yuv): Hsv
  {
    RgbToHsv(YuvToRgb(c))
  }

  /** `hsv_to_yuv`: through RGB. */
  function HsvToYuv(c: Hsv): Yuv
  {
    RgbToYuv(HsvToRgb(c))
  }

  /** A grey has neutral chroma: both colour differences sit at 128. */
  lemma GreyHasNeutralChroma(c: Rgb)
    requires IsGrey(c)
    ensures RgbToYuv(c).u == 128 && RgbToYuv(c).v == 128
  {
  }

  /** Neutral chroma decodes to a grey; at or below studio black 16 it is black
      and at or above studio white 235 it is white. */
  lemma NeutralChromaIsGrey(y: Byte)
    ensures IsGrey(YuvToRgb(Yuv(y, 128, 128)))
    ensures y <= 16 ==> YuvToRgb(Yuv(y, 128, 128)) == Rgb(0, 0, 0)
    ensures y >= 235 ==> YuvToRgb(Yuv(y, 128, 128)) == Rgb(255, 255, 255)
  {
  }

  /** Raising the luma never darkens any channel. */
  lemma YuvToRgbMonotoneInLuma(c: Yuv, y: Byte)
    requires c.y <= y
    ensures YuvToRgb(c).r <= YuvToRgb(c.(y := y)).r
    ensures YuvToRgb(c).g <= YuvToRgb(c.(y := y)).g
    ensures YuvToRgb(c).b <= YuvToRgb(c.(y := y)).b
  {
  }

  /** `yuv_to_hsv` of neutral chroma has neither hue nor saturation, and its
      value is the decoded grey level. */
  lemma NeutralChromaHasNoHue(y: Byte)
    ensures YuvToHsv(Yuv(y, 128, 128)).h == 0 && YuvToHsv(Yuv(y, 128, 128)).s == 0
    ensures YuvToHsv(Yuv(y, 128, 128)).v == YuvToRgb(Yuv(y, 128, 128)).r
  {
    NeutralChromaIsGrey(y);
  }

  /** `hsv_to_yuv` stays within the studio range, and zero saturation gives
      neutral chroma. */
  lemma HsvToYuvRanges(c: Hsv)
    ensures 16 <= HsvToYuv(c).y <= 235 && 16 <= HsvToYuv(c).u <= 240 && 16 <= HsvToYuv(c).v <= 239
    ensures c.s == 0 ==> HsvToYuv(c).u == 128 && HsvToYuv(c).v == 128
  {
    if c.s == 0 {
      GreyHasNeutralChroma(HsvToRgb(c));
    }
  }

  // ---------------------------------------------------------------------
  // Round trips

  /** Two values differ by at most 2, the tolerance of the unit tests. */
  predicate Near(a: int, b: int)
  {
    -2 <= a - b <= 2
  }

  predicate RgbNear(x: Rgb, y: Rgb)
  {
    Near(x.r, y.r) && Near(x.g, y.g) && Near(x.b, y.b)
  }

  predicate YuvNear(x: Yuv, y: Yuv)
  {
    Near(x.y, y.y) && Near(x.u, y.u) && Near(x.v, y.v)
  }

  /** `v * (255 - s) / 255` undoes the saturation `s = (v - m) * 255 / v`
      exactly: the darkest channel `m` comes back unchanged. */
  lemma DimUndoesSaturation(v: nat, n: nat)
    requires 0 < v <= 255 && n <= v
    ensures n * 255 / v <= 255
    ensures v * (255 - n * 255 / v) / 255 == v - n
  {
    var q := n * 255 / v;
    var rho := n * 255 % v;
    assert n * 255 == q * v + rho && 0 <= rho < v;
    ScaleLe(255, n, v);
    assert v * (255 - q) == 255 * v - q * v;
    assert v * (255 - q) == 255 * (v - n) + rho;
  }

  /** Through HSV and back, the largest and the smallest channel value of every
      colour come back exactly; which channel holds them can change (see
      `HsvRoundTripMovesMaximum`). */
  lemma HsvRoundTripKeepsExtremes(c: Rgb)
    ensures Max3(HsvToRgb(RgbToHsv(c)).r, HsvToRgb(RgbToHsv(c)).g, HsvToRgb(RgbToHsv(c)).b)
            == Max3(c.r, c.g, c.b)
    ensures Min3(HsvToRgb(RgbToHsv(c)).r, HsvToRgb(RgbToHsv(c)).g, HsvToRgb(RgbToHsv(c)).b)
            == Min3(c.r, c.g, c.b)
  {
    var mx, mn := Max3(c.r, c.g, c.b), Min3(c.r, c.g, c.b);
    if mx > 0 {
      DimUndoesSaturation(mx, mx - mn);
    }
  }

  /** A grey comes back from HSV exactly. */
  lemma GreyHsvRoundTrip(c: Rgb)
    requires IsGrey(c)
    ensures HsvToRgb(RgbToHsv(c)) == c
  {
  }

  /** The hue wheel closes: hue 255 (sextant 6) gives the colour of hue 0. */
  lemma HueWrapsAround(s: Byte, v: Byte)
    ensures HsvToRgb(Hsv(255, s, v)) == HsvToRgb(Hsv(0, s, v))
  {
  }

  /** The first vector of the test `rgb_to_hsv_works`: pure red goes to hue 0
      at full saturation and comes back exactly. */
  lemma RgbToHsvWorksRed()
    ensures HsvToRgb(RgbToHsv(Rgb(255, 0, 0))) == Rgb(255, 0, 0)
  {
    assert RgbToHsv(Rgb(255, 0, 0)) == Hsv(0, 255, 255);
  }

  /** The second vector of `rgb_to_hsv_works`: the middle channel comes back 2
      higher, inside the tolerance of the test. */
  lemma RgbToHsvWorksBlue()
    ensures HsvToRgb(RgbToHsv(Rgb(10, 30, 200))) == Rgb(10, 32, 200)
    ensures RgbNear(HsvToRgb(RgbToHsv(Rgb(10, 30, 200))), Rgb(10, 30, 200))
  {
    assert RgbToHsv(Rgb(10, 30, 200)) == Hsv(165, 242, 200);
  }

  /** The third vector of `rgb_to_hsv_works`, a grey, comes back exactly. */
  lemma RgbToHsvWorksGrey()
    ensures HsvToRgb(RgbToHsv(Rgb(222, 222, 222))) == Rgb(222, 222, 222)
  {
    assert RgbToHsv(Rgb(222, 222, 222)) == Hsv(0, 0, 222);
  }

  /** The first vector of the test `rgb_to_yuv_works`: pure red comes back
      within 1 on two channels. */
  lemma RgbToYuvWorksRed()
    ensures YuvToRgb(RgbToYuv(Rgb(255, 0, 0))) == Rgb(254, 1, 0)
    ensures RgbNear(YuvToRgb(RgbToYuv(Rgb(255, 0, 0))), Rgb(255, 0, 0))
  {
    assert RgbToYuv(Rgb(255, 0, 0)) == Yuv(82, 90, 239);
  }

  /** The second vector of `rgb_to_yuv_works`: blue comes back 2 lower. */
  lemma RgbToYuvWorksBlue()
    ensures YuvToRgb(RgbToYuv(Rgb(10, 30, 200))) == Rgb(10, 30, 198)
    ensures RgbNear(YuvToRgb(RgbToYuv(Rgb(10, 30, 200))), Rgb(10, 30, 200))
  {
    assert RgbToYuv(Rgb(10, 30, 200)) == Yuv(53, 205, 107);
  }

  /** The third vector of `rgb_to_yuv_works`, a grey, comes back exactly. */
  lemma RgbToYuvWorksGrey()
    ensures YuvToRgb(RgbToYuv(Rgb(222, 222, 222))) == Rgb(222, 222, 222)
  {
    assert RgbToYuv(Rgb(222, 222, 222)) == Yuv(207, 128, 128);
  }

  /** The fourth vector of `rgb_to_yuv_works`: blue comes back 1 higher. */
  lemma RgbToYuvWorksGreen()
    ensures YuvToRgb(RgbToYuv(Rgb(0, 133, 0))) == Rgb(0, 133, 1)
    ensures RgbNear(YuvToRgb(RgbToYuv(Rgb(0, 133, 0))), Rgb(0, 133, 0))
  {
    assert RgbToYuv(Rgb(0, 133, 0)) == Yuv(83, 90, 79);
  }

  /** The first vector of the test `yuv_to_hsv_works`: the colour decodes to
      (0, 133, 0), which survives HSV exactly, and re-encodes with `u` 1 higher. */
  lemma YuvToHsvWorksDarkGreen()
    ensures HsvToYuv(YuvToHsv(Yuv(83, 89, 79))) == Yuv(83, 90, 79)
    ensures YuvNear(HsvToYuv(YuvToHsv(Yuv(83, 89, 79))), Yuv(83, 89, 79))
  {
    assert YuvToRgb(Yuv(83, 89, 79)) == Rgb(0, 133, 0);
    assert RgbToHsv(Rgb(0, 133, 0)) == Hsv(85, 255, 133);
    assert HsvToRgb(Hsv(85, 255, 133)) == Rgb(0, 133, 0);
  }

  /** The second vector of `yuv_to_hsv_works`, neutral chroma, comes back exactly. */
  lemma YuvToHsvWorksGrey()
    ensures HsvToYuv(YuvToHsv(Yuv(188, 128, 128))) == Yuv(188, 128, 128)
  {
    assert YuvToRgb(Yuv(188, 128, 128)) == Rgb(200, 200, 200);
    assert RgbToHsv(Rgb(200, 200, 200)) == Hsv(0, 0, 200);
  }

  /** The third vector of `yuv_to_hsv_works`: luma and `u` come back 1 lower. */
  lemma YuvToHsvWorksGreen()
    ensures HsvToYuv(YuvToHsv(Yuv(124, 90, 55))) == Yuv(123, 89, 55)
    ensures YuvNear(HsvToYuv(YuvToHsv(Yuv(124, 90, 55))), Yuv(124, 90, 55))
  {
    assert YuvToRgb(Yuv(124, 90, 55)) == Rgb(9, 200, 49);
    assert RgbToHsv(Rgb(9, 200, 49)) == Hsv(93, 243, 200);
    assert HsvToRgb(Hsv(93, 243, 200)) == Rgb(9, 200, 45);
  }

  /** The tolerance of the tests is not a bound for every colour: the middle
      channel of (0, 214, 146) comes back 6 lower. */
  lemma HsvRoundTripOutsideTolerance()
    ensures HsvToRgb(RgbToHsv(Rgb(0, 214, 146))) == Rgb(0, 214, 140)
    ensures !RgbNear(HsvToRgb(RgbToHsv(Rgb(0, 214, 146))), Rgb(0, 214, 146))
  {
    assert RgbToHsv(Rgb(0, 214, 146)) == Hsv(113, 255, 214);
  }

  /** Nor is the brightest channel always kept: (255, 0, 254) has hue 212, in
      sextant 4, where red ramps back 3 lower, and the maximum moves
      from red to blue. */
  lemma HsvRoundTripMovesMaximum()
    ensures HsvToRgb(RgbToHsv(Rgb(255, 0, 254))) == Rgb(252, 0, 255)
    ensures !RgbNear(HsvToRgb(RgbToHsv(Rgb(255, 0, 254))), Rgb(255, 0, 254))
  {
    assert RgbToHsv(Rgb(255, 0, 254)) == Hsv(212, 255, 255);
  }

  /** Nor for YUV: the blue channel of (0, 21, 255) comes back 3 lower. */
  lemma YuvRoundTripOutsideTolerance()
    ensures YuvToRgb(RgbToYuv(Rgb(0, 21, 255))) == Rgb(0, 21, 252)
    ensures !RgbNear(YuvToRgb(RgbToYuv(Rgb(0, 21, 255))), Rgb(0, 21, 255))
  {
    assert RgbToYuv(Rgb(0, 21, 255)) == Yuv(51, 233, 102);
  }
}
