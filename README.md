# AGCWD in Dafny

This project models the integer core of `agcwd`, a Rust library that
brightens images by adaptive gamma correction with a weighting distribution
(AGCWD). The library reads a byte buffer as pixels, builds a 256-bin
histogram of pixel intensities, and derives a gamma curve from it. It then
rewrites every pixel in place through that curve.

- `color_format.dfy` (module `ColorFormat`) models `src/color_format.rs`.
  This file holds the 8-bit integer conversions between RGB, HSV and studio-range
  YUV (ITU-R BT.601), written as pure functions.
  - `usize` and `i32` are unbounded integers, because no intermediate value
    here comes near either width.
  - Each unsigned subtraction is bound to a `nat`, so the verifier proves it
    never underflows.
  - Each `as u8` cast goes through `AsU8`, and the proofs show that no cast
    wraps.
- `enhancer.dfy` (module `Enhancer`) models the buffer side of `src/lib.rs`.
  - `Image` is a class over an `array` of bytes, with `N` as the field `stride`.
  - Its methods read the intensities and rewrite the pixels in place.
  - `Histogram` is the counting loop.
  - `Agcwd` is the driver.
  - The floating-point stages that turn the histogram into a per-pixel map
    are one function parameter (`CurveBuilder`).

The pixel rewrite is specified by the predicate `Rewrites(p, q, n, f)`. It
holds when every full chunk of `q` has the colour `f` gives the same chunk
of `p`, every other byte of a full chunk is kept, and the trailing partial
chunk is kept. `RewriteIsDeterministic` shows that this predicate fixes the
whole new buffer. The histogram is specified by `HistogramOf`, whose bin
`k` is proved to be the number of intensities equal to `k`.

## Model

| member | source | states |
|---|---|---|
| ColorFormat.AsU8 | src/color_format.rs:27 | `as u8` keeps a value in 0..255 unchanged and otherwise wraps it modulo 256 |
| ColorFormat.Shr8 | src/color_format.rs:89-91 | `>> 8` on `i32` is division by 256 rounded toward negative infinity |
| ColorFormat.Clamp | src/color_format.rs:93-95 | `to_u8` keeps 0..255, sends negatives to 0 and values above 255 to 255 |
| ColorFormat.Saturation | src/color_format.rs:9-11 | `max - min` never underflows; the saturation is at most 255, and it is 0 exactly when max equals min |
| ColorFormat.HueArc | src/color_format.rs:17-24 | the left-to-right `usize` evaluation of the green, blue and wrapped-red hue formulas never underflows; the result is at most `base * 255 + 255`, and at most `base * 255` when the first channel is not above the second |
| ColorFormat.HueRise | src/color_format.rs:19 | `(g - b) * 255 / n` is at most 255 when `g - b <= n` |
| ColorFormat.Hue | src/color_format.rs:13-25 | the hue before its cast is at most 255, and it is 0 when the channels are all equal |
| ColorFormat.RgbToHsv | src/color_format.rs:3-28 | `v` is the maximum channel; the `h` and `s` casts lose nothing; `s == 0` holds exactly for greys; a grey has hue 0; black has saturation 0 |
| ColorFormat.Dim | src/color_format.rs:45 | `x * (255 - s) / 255` never underflows, never exceeds `x`, and equals `x` when `s == 0` |
| ColorFormat.Ramp | src/color_format.rs:44 | `x * (255*255 - s*t) / (255*255)` never underflows and lies between `Dim(x, s)` and `x` |
| ColorFormat.Sextant | src/color_format.rs:39-42 | `h * 6 / 255` is at most 6, and it is 6 only for `h == 255` |
| ColorFormat.HsvToRgb | src/color_format.rs:30-71 | `s == 0` gives `(v, v, v)`; every channel is at most `v`; the brightest channel is `v` and the darkest is `Dim(v, s)`; the fallback arm is reached only for sextant 0 or 6 |
| ColorFormat.Luma | src/color_format.rs:106 | the luma lies in 16..235 |
| ColorFormat.ChromaBlue | src/color_format.rs:107 | the blue-difference chroma lies in 16..240 |
| ColorFormat.ChromaRed | src/color_format.rs:108 | the red-difference chroma lies in 16..239 |
| ColorFormat.YuvToRgb | src/color_format.rs:84-98 | the three `i32` channel formulas of lines 89-91, each shifted by `Shr8` and passed through `Clamp`; the result type `Byte` and `Clamp`'s ensures give the clamping into 0..255 (its properties are the lemmas below) |
| ColorFormat.YuvToHsv | src/color_format.rs:73-76 | exactly `rgb_to_hsv` of `yuv_to_rgb`, as the source composes them (its properties are `NeutralChromaHasNoHue` and the `yuv_to_hsv_works` vectors) |
| ColorFormat.HsvToYuv | src/color_format.rs:78-81 | exactly `rgb_to_yuv` of `hsv_to_rgb`, as the source composes them (its properties are `HsvToYuvRanges` and the `yuv_to_hsv_works` vectors) |
| ColorFormat.RgbToYuv | src/color_format.rs:101-111 | no cast to `u8` wraps, so `y` lies in 16..235, `u` in 16..240 and `v` in 16..239 |
| ColorFormat.GreyHasNeutralChroma | src/color_format.rs:101-111 | a grey encodes with `u == v == 128` |
| ColorFormat.NeutralChromaIsGrey | src/color_format.rs:84-98 | neutral chroma decodes to a grey; luma at most 16 decodes to black, and luma at least 235 decodes to white |
| ColorFormat.YuvToRgbMonotoneInLuma | src/color_format.rs:84-98 | raising the luma never lowers any decoded channel |
| ColorFormat.NeutralChromaHasNoHue | src/color_format.rs:73-76 | `yuv_to_hsv` of neutral chroma has `h == s == 0` and `v` equal to the decoded grey level |
| ColorFormat.HsvToYuvRanges | src/color_format.rs:78-81 | `hsv_to_yuv` stays in the studio ranges, and zero saturation gives neutral chroma |
| ColorFormat.DimUndoesSaturation | src/color_format.rs:11 | `v * (255 - (v - m) * 255 / v) / 255 == m`: the darkened channel of `hsv_to_rgb` undoes the saturation of `rgb_to_hsv` exactly |
| ColorFormat.HsvRoundTripKeepsExtremes | src/color_format.rs:3-71 | through HSV and back, the largest and the smallest channel value of every colour come back exactly; which channel holds them can change |
| ColorFormat.GreyHsvRoundTrip | src/color_format.rs:3-71 | a grey survives RGB to HSV to RGB unchanged |
| ColorFormat.HueWrapsAround | src/color_format.rs:39-67 | hue 255 (sextant 6, the fallback arm) gives the same colour as hue 0 |
| ColorFormat.RgbToHsvWorksRed | src/color_format.rs:117-131 | (255, 0, 0) comes back exactly |
| ColorFormat.RgbToHsvWorksBlue | src/color_format.rs:117-131 | (10, 30, 200) comes back as (10, 32, 200), within 2 on every channel |
| ColorFormat.RgbToHsvWorksGrey | src/color_format.rs:117-131 | (222, 222, 222) comes back exactly |
| ColorFormat.RgbToYuvWorksRed | src/color_format.rs:133-147 | (255, 0, 0) comes back as (254, 1, 0), within 2 |
| ColorFormat.RgbToYuvWorksBlue | src/color_format.rs:133-147 | (10, 30, 200) comes back as (10, 30, 198), within 2 |
| ColorFormat.RgbToYuvWorksGrey | src/color_format.rs:133-147 | (222, 222, 222) comes back exactly |
| ColorFormat.RgbToYuvWorksGreen | src/color_format.rs:133-147 | (0, 133, 0) comes back as (0, 133, 1), within 2 |
| ColorFormat.YuvToHsvWorksDarkGreen | src/color_format.rs:149-163 | YUV (83, 89, 79) comes back through HSV as (83, 90, 79), within 2 |
| ColorFormat.YuvToHsvWorksGrey | src/color_format.rs:149-163 | YUV (188, 128, 128) comes back exactly |
| ColorFormat.YuvToHsvWorksGreen | src/color_format.rs:149-163 | YUV (124, 90, 55) comes back as (123, 89, 55), within 2 |
| ColorFormat.HsvRoundTripOutsideTolerance | src/color_format.rs:117-131 | the tolerance of 2 is asserted only for the listed vectors, and it fails elsewhere: RGB (0, 214, 146) comes back through HSV as (0, 214, 140) |
| ColorFormat.HsvRoundTripMovesMaximum | src/color_format.rs:117-131 | the brightest channel can move too: RGB (255, 0, 254) comes back through HSV as (252, 0, 255), outside the tolerance of 2 |
| ColorFormat.YuvRoundTripOutsideTolerance | src/color_format.rs:133-147 | the same for YUV: RGB (0, 21, 255) comes back as (0, 21, 252) |
| Enhancer.Intensity | src/lib.rs:66 | the intensity, defined as `Max3` of the three channels, is at least each of them and equal to one of them |
| Enhancer.IntensityIsHsvValue | src/lib.rs:66 | the intensity equals the `v` that `rgb_to_hsv` assigns the pixel |
| Enhancer.IntensitiesOf | src/lib.rs:63-67 | `chunks_exact(N)` yields `len / N` intensities, the `c`-th being the maximum of chunk `c`'s first three bytes; the trailing partial chunk is skipped |
| Enhancer.HistogramOf | src/lib.rs:90-94 | 256 bins; bin `k` counts the intensities equal to `k`; the bins sum to the number of intensities |
| Enhancer.HistogramOfSnoc | src/lib.rs:92-93 | one more intensity `x` adds one to bin `x` and changes no other bin |
| Enhancer.HistogramOfPrefix | src/lib.rs:92-93 | after counting the `i + 1`-th intensity, the histogram of the prefix of length `i + 1` is that of the prefix of length `i` with that intensity's bin incremented |
| Enhancer.WriteColour | src/lib.rs:79-81 | writing a colour into chunk `i` sets that chunk's first three bytes, keeps the length and changes no other byte |
| Enhancer.RewriteStep | src/lib.rs:77-82 | chunk `i` is still unchanged when the loop reaches it, and rewriting it from its own colour extends the rewritten prefix by one chunk |
| Enhancer.RewriteIsDeterministic | src/lib.rs:73-83 | two results of rewriting the same buffer with the same map are equal: the specification determines every byte |
| Enhancer.RewriteWithIdentityIsNoOp | src/lib.rs:73-83 | rewriting with the identity map leaves the buffer as it was |
| Enhancer.RewriteKeepsAlpha | src/lib.rs:73-83 | with four-byte chunks, no byte at an index congruent to 3 modulo 4 changes |
| Enhancer.Image.constructor | src/lib.rs:58-61 | `size` is the buffer length divided by `N`, rounded down |
| Enhancer.Image.Intensities | src/lib.rs:63-67 | `size` intensities, the `c`-th being the intensity of pixel `c` |
| Enhancer.Image.Len | src/lib.rs:69-71 | the pixel count equals the number of intensities |
| Enhancer.Image.UpdatePixels | src/lib.rs:73-83 | in place, each full chunk's first three bytes become `f` of that chunk's old colour; its other bytes, the trailing partial chunk and the length are unchanged |
| Enhancer.Histogram | src/lib.rs:90-94 | the counting loop gives `HistogramOf` the intensities: every index is below 256, bin `k` counts intensity `k`, and the bins sum to `len()` |
| Enhancer.Agcwd.constructor | src/lib.rs:7-9 | stores `alpha` |
| Enhancer.Agcwd.EnhanceImage | src/lib.rs:19-35 | the buffer is rewritten with the map built from `alpha` and the histogram of the buffer's original intensities |
| Enhancer.Agcwd.EnhanceRgbImage | src/lib.rs:11-13 | the same with three bytes per pixel |
| Enhancer.Agcwd.EnhanceRgbaImage | src/lib.rs:15-17 | the same with four bytes per pixel; no alpha byte changes |

## Left out

- The floating-point pipeline is not modelled. It covers the probability
  density and its division by the pixel count (`src/lib.rs:96-100`), the
  weighting by `alpha` and the cumulative distribution (`src/lib.rs:104-136`),
  the gamma curve (`src/lib.rs:42-48`), and the float HSV conversion inside
  the closure (`src/lib.rs:26-33`). Dafny's `real` is not IEEE `f32`. The
  driver receives these stages as one function from `alpha` and the histogram
  to a per-pixel map. `alpha` is passed through as a `real`.
- The float `rgb_to_hsv` and `hsv_to_rgb` used by the closure
  (`src/lib.rs:139-202`) are not part of this model. Only the integer ones in
  `src/color_format.rs` are.
- The example programs, the WebAssembly wrapper, image fusion and planar or
  I420 buffers are not part of this model.
- The `(u8, u8, u8)` tuples are the datatypes `Rgb`, `Hsv` and `Yuv`. The
  closure of `update_pixels`, a function of three bytes, is a function
  `Rgb -> Rgb`.
- `usize` and `i32` are unbounded integers. In `src/color_format.rs` no
  intermediate value exceeds 255 * 255 * 255. Buffer lengths and chunk
  offsets are bounded by the slice length.
- Enhancer.Histogram: the Rust counters have type `i32`, inferred from the
  literal `[0; 256]`. They would overflow past 2^31 - 1 pixels of one
  intensity. The model counts with unbounded `nat`.
- Enhancer.Agcwd.EnhanceImage: requires at least three bytes per pixel. The
  source only instantiates `N = 3` and `N = 4`. With `N = 0` it panics
  dividing by zero in `Image::new` (`src/lib.rs:59`). With `N = 1` or `N = 2`
  it panics indexing `p[1]` or `p[2]` (`src/lib.rs:66`) as soon as the buffer
  holds one full chunk. The model has no panics.
- Enhancer.Image.UpdatePixels: the closure's result depends only on the chunk's
  colour. The Rust closure also cannot see the buffer, so nothing is lost.
- The unit tests assert a round-trip tolerance of 2 for their listed vectors
  only. The model proves each listed vector exactly. It also shows three
  colours for which a tolerance of 2 fails: `HsvRoundTripOutsideTolerance`,
  `HsvRoundTripMovesMaximum` and `YuvRoundTripOutsideTolerance`. No exact
  bound over all colours is given.
- The `debug_assert!` in the fallback arm of `hsv_to_rgb` is an `assert` in
  `HsvToRgb`, proved for every input. The `dbg!` output of the tests is not modelled.
