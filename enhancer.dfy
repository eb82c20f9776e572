/** The pixel-buffer side of the enhancer (src/lib.rs): a byte buffer viewed as
    pixels of `N` bytes each (`N = 3` for RGB, `N = 4` for RGBA), the intensity
    (brightest channel) of every pixel, the 256-bin histogram of intensities,
    the in-place rewrite of every pixel, and the driver that strings them
    together.

    The floating-point stages between the histogram and the rewrite (the
    probability density, its weighting by `alpha`, the cumulative distribution,
    the gamma curve and the float HSV conversion applied to each pixel) are
    not modelled: the driver receives them as one function, `CurveBuilder`,
    from `alpha` and the histogram to the map applied to each pixel. */
module Enhancer {
  import opened ColorFormat

  /** The closure handed to `update_pixels`: one pixel's colour to its new colour. */
  type PixelMap = Rgb -> Rgb

  /** Everything `enhance_image` computes between the histogram and the rewrite. */
  type CurveBuilder = (real, seq<nat>) -> PixelMap

  // ---------------------------------------------------------------------
  // Chunk arithmetic

  /** A full chunk `c` of a buffer of length `len` ends inside the buffer. */
  lemma ChunkFits(c: nat, n: nat, len: nat)
    requires 0 < n && c < len / n
    ensures c * n + n <= len
  {
    assert (len / n - c - 1) * n >= 0;
    assert (len / n) * n <= len;
  }

  /** Chunk `c` ends where a later chunk `i` begins or earlier. */
  lemma ChunkBefore(c: nat, i: nat, n: nat)
    requires c < i
    ensures c * n + n <= i * n
  {
    var d := i - c - 1;
    assert i * n == c * n + n + d * n;
  }

  /** Floor division undoes a multiplication: `(q * n + r) / n == q`. */
  lemma DivOfMulAdd(q: nat, n: nat, r: nat)
    requires r < n
    ensures (q * n + r) / n == q
  {
    var x := q * n + r;
    var d, m := x / n, x % n;
    assert d * n + m == x && 0 <= m < n;
    MulLtCancel(d, q + 1, n);
    MulLtCancel(q, d + 1, n);
  }

  /** Dropping the first chunk leaves one chunk fewer. */
  lemma DropChunk(len: nat, n: nat)
    requires 0 < n <= len
    ensures (len - n) / n == len / n - 1
  {
    var q, r := (len - n) / n, (len - n) % n;
    assert len == (q + 1) * n + r;
    DivOfMulAdd(q + 1, n, r);
  }

  // ---------------------------------------------------------------------
  // Pixels of a buffer

  /** The colour of the full chunk `c`: its first three bytes. */
  function PixelAt(p: seq<Byte>, n: nat, c: nat): Rgb
    requires 3 <= n && c < |p| / n
  {
    ChunkFits(c, n, |p|);
    Rgb(p[c * n], p[c * n + 1], p[c * n + 2])
  }

  /** Byte `k` of the full chunk `c`. */
  function At(p: seq<Byte>, n: nat, c: nat, k: nat): Byte
    requires 3 <= n && c < |p| / n && k < n
  {
    ChunkFits(c, n, |p|);
    p[c * n + k]
  }

  /** `max(p[0], max(p[1], p[2]))`: the intensity of a pixel. */
  function Intensity(px: Rgb): (m: Byte)
    ensures m >= px.r && m >= px.g && m >= px.b
    ensures m == px.r || m == px.g || m == px.b
  {
    Max3(px.r, px.g, px.b)
  }

  /** The intensity is the value `v` that `rgb_to_hsv` assigns the pixel. */
  lemma IntensityIsHsvValue(px: Rgb)
    ensures Intensity(px) == RgbToHsv(px).v
  {
  }

  /** After the first chunk, chunk `c` of the rest is chunk `c + 1` of the whole. */
  lemma PixelAfterFirst(p: seq<Byte>, n: nat, c: nat)
    requires 3 <= n <= |p| && c < |p[n..]| / n
    ensures c + 1 < |p| / n
    ensures PixelAt(p[n..], n, c) == PixelAt(p, n, c + 1)
  {
    DropChunk(|p|, n);
    ChunkFits(c, n, |p| - n);
    var o := c * n;
    assert (c + 1) * n == o + n;
    assert p[n..][o] == p[o + n] && p[n..][o + 1] == p[o + n + 1] && p[n..][o + 2] == p[o + n + 2];
  }

  lemma PixelsAfterFirst(p: seq<Byte>, n: nat)
    requires 3 <= n <= |p|
    ensures |p[n..]| / n == |p| / n - 1
    ensures forall c :: 0 <= c < |p[n..]| / n ==> PixelAt(p[n..], n, c) == PixelAt(p, n, c + 1)
  {
    DropChunk(|p|, n);
    forall c | 0 <= c < |p[n..]| / n
      ensures PixelAt(p[n..], n, c) == PixelAt(p, n, c + 1)
    {
      PixelAfterFirst(p, n, c);
    }
  }

  /** `chunks_exact(N).map(max of the first three bytes)`: one intensity per
      full chunk, in order; the trailing partial chunk is skipped. */
  function IntensitiesOf(p: seq<Byte>, n: nat): (xs: seq<Byte>)
    requires 3 <= n
    ensures |xs| == |p| / n
    ensures forall c :: 0 <= c < |xs| ==> xs[c] == Intensity(PixelAt(p, n, c))
    decreases |p|
  {
    if |p| < n then
      DivOfMulAdd(0, n, |p|);
      []
    else
      PixelsAfterFirst(p, n);
      var rest := IntensitiesOf(p[n..], n);
      var xs := [Intensity(PixelAt(p, n, 0))] + rest;
      assert forall c :: 1 <= c < |xs| ==> xs[c] == rest[c - 1];
      xs
  }

  // ---------------------------------------------------------------------
  // Histogram

  /** The sum of a sequence of counts. */
  function Sum(s: seq<nat>): nat
  {
    if |s| == 0 then 0 else Sum(s[..|s| - 1]) + s[|s| - 1]
  }

  /** A sequence of zeros sums to zero. */
  lemma {:induction false} SumOfZeros(m: nat)
    ensures Sum(seq(m, _ => 0)) == 0
  {
    if m > 0 {
      assert seq(m, _ => 0)[..m - 1] == seq(m - 1, _ => 0);
      SumOfZeros(m - 1);
    }
  }

  /** Incrementing one count increments the sum. */
  lemma {:induction false} SumIncrement(s: seq<nat>, k: nat)
    requires k < |s|
    ensures Sum(s[k := s[k] + 1]) == Sum(s) + 1
  {
    var t := s[k := s[k] + 1];
    var last := |s| - 1;
    if k < last {
      assert t[..last] == s[..last][k := s[k] + 1];
      SumIncrement(s[..last], k);
    } else {
      assert t[..last] == s[..last];
    }
  }

  /** The histogram of a sequence of intensities, one bin per possible value,
      filled in the order the intensities come. */
  function HistogramOf(xs: seq<Byte>): (h: seq<nat>)
    ensures |h| == 256
    ensures forall k :: 0 <= k < 256 ==> h[k] == multiset(xs)[k]
    ensures Sum(h) == |xs|
  {
    if |xs| == 0 then
      SumOfZeros(256);
      seq(256, _ => 0)
    else
      var init, x := xs[..|xs| - 1], xs[|xs| - 1];
      assert xs == init + [x];
      var h := HistogramOf(init);
      SumIncrement(h, x);
      h[x := h[x] + 1]
  }

  /** One more intensity adds one to its own bin. */
  lemma HistogramOfSnoc(xs: seq<Byte>, x: Byte)
    ensures HistogramOf(xs + [x]) == HistogramOf(xs)[x := HistogramOf(xs)[x] + 1]
  {
    assert (xs + [x])[..|xs|] == xs;
  }

  /** Counting the intensities one at a time: the histogram of a prefix one
      longer is the shorter prefix's with the next intensity counted. */
  lemma HistogramOfPrefix(xs: seq<Byte>, i: nat)
    requires i < |xs|
    ensures HistogramOf(xs[..i + 1]) == HistogramOf(xs[..i])[xs[i] := HistogramOf(xs[..i])[xs[i]] + 1]
  {
    assert xs[..i + 1] == xs[..i] + [xs[i]];
    HistogramOfSnoc(xs[..i], xs[i]);
  }

  // ---------------------------------------------------------------------
  // Rewriting the pixels

  /** The first `i` full chunks of `q` are those of `p` with their colour
      replaced by `f` of it and their other bytes kept, and from chunk `i` on
      `q` is still `p`. */
  ghost predicate RewrittenUpTo(p: seq<Byte>, q: seq<Byte>, n: nat, f: PixelMap, i: nat)
    requires 3 <= n && |q| == |p| && i <= |p| / n
  {
    && (forall c :: 0 <= c < i ==> PixelAt(q, n, c) == f(PixelAt(p, n, c)))
    && (forall c, k :: 0 <= c < i && 3 <= k < n ==> At(q, n, c, k) == At(p, n, c, k))
    && (forall j :: i * n <= j < |p| ==> q[j] == p[j])
  }

  /** `q` is `p` with the colour of every full chunk replaced by `f` of its old
      colour, every other byte of a full chunk kept, and the trailing partial
      chunk kept. */
  ghost predicate Rewrites(p: seq<Byte>, q: seq<Byte>, n: nat, f: PixelMap)
    requires 3 <= n
  {
    |q| == |p| && RewrittenUpTo(p, q, n, f, |p| / n)
  }

  /** `q` with the colour of chunk `i` overwritten by `rgb`. */
  function WriteColour(q: seq<Byte>, n: nat, i: nat, rgb: Rgb): (r: seq<Byte>)
    requires 3 <= n && i < |q| / n
    ensures |r| == |q| && PixelAt(r, n, i) == rgb
    ensures forall j :: 0 <= j < |q| && (j < i * n || i * n + 3 <= j) ==> r[j] == q[j]
  {
    ChunkFits(i, n, |q|);
    var o := i * n;
    q[o := rgb.r][o + 1 := rgb.g][o + 2 := rgb.b]
  }

  /** Every index of a buffer lies in a full chunk or in the trailing part. */
  lemma ChunkOrTail(j: nat, n: nat, len: nat)
    requires 0 < n && j < len
    ensures j == (j / n) * n + j % n
    ensures j / n < len / n || (len / n) * n <= j
  {
    if j / n >= len / n {
      assert (j / n - len / n) * n >= 0;
    }
  }

  /** Two rewrites of the same buffer with the same map agree at index `j`. */
  lemma RewritesAgreeAt(p: seq<Byte>, q1: seq<Byte>, q2: seq<Byte>, n: nat, f: PixelMap, j: nat)
    requires 3 <= n && Rewrites(p, q1, n, f) && Rewrites(p, q2, n, f) && j < |p|
    ensures q1[j] == q2[j]
  {
    ChunkOrTail(j, n, |p|);
    var c, k := j / n, j % n;
    if c < |p| / n {
      if k < 3 {
        assert PixelAt(q1, n, c) == PixelAt(q2, n, c);
      } else {
        assert At(q1, n, c, k) == At(p, n, c, k) == At(q2, n, c, k);
      }
    }
  }

  /** `Rewrites` leaves no byte undetermined: it fixes the whole new buffer. */
  lemma RewriteIsDeterministic(p: seq<Byte>, q1: seq<Byte>, q2: seq<Byte>, n: nat, f: PixelMap)
    requires 3 <= n && Rewrites(p, q1, n, f) && Rewrites(p, q2, n, f)
    ensures q1 == q2
  {
    forall j | 0 <= j < |p|
      ensures q1[j] == q2[j]
    {
      RewritesAgreeAt(p, q1, q2, n, f, j);
    }
  }

  /** With the identity map, nothing changes. */
  lemma RewriteWithIdentityIsNoOp(p: seq<Byte>, q: seq<Byte>, n: nat)
    requires 3 <= n && Rewrites(p, q, n, px => px)
    ensures q == p
  {
    assert Rewrites(p, p, n, px => px);
    RewriteIsDeterministic(p, q, p, n, px => px);
  }

  /** With four-byte pixels, every fourth byte (the alpha channel) is kept. */
  lemma RewriteKeepsAlpha(p: seq<Byte>, q: seq<Byte>, f: PixelMap)
    requires Rewrites(p, q, 4, f)
    ensures forall j :: 0 <= j < |p| && j % 4 == 3 ==> q[j] == p[j]
  {
    forall j | 0 <= j < |p| && j % 4 == 3
      ensures q[j] == p[j]
    {
      var c := j / 4;
      if c < |p| / 4 {
        assert At(q, 4, c, 3) == At(p, 4, c, 3);
      }
    }
  }

  /** Writing at or after the start of chunk `i` keeps chunk `c < i`. */
  lemma EarlierChunkKept(a: seq<Byte>, b: seq<Byte>, n: nat, i: nat, c: nat, k: nat)
    requires 3 <= n && |a| == |b| && c < i <= |a| / n && k < n
    requires forall j :: 0 <= j < i * n ==> a[j] == b[j]
    ensures At(b, n, c, k) == At(a, n, c, k)
  {
    ChunkBefore(c, i, n);
  }

  /** Writing at or after the start of chunk `i` keeps every earlier chunk. */
  lemma EarlierChunksKept(a: seq<Byte>, b: seq<Byte>, n: nat, i: nat)
    requires 3 <= n && |a| == |b| && i <= |a| / n
    requires forall j :: 0 <= j < i * n ==> a[j] == b[j]
    ensures forall c :: 0 <= c < i ==> PixelAt(b, n, c) == PixelAt(a, n, c)
    ensures forall c, k :: 0 <= c < i && 3 <= k < n ==> At(b, n, c, k) == At(a, n, c, k)
  {
    forall c, k | 0 <= c < i && 0 <= k < n
      ensures At(b, n, c, k) == At(a, n, c, k)
    {
      EarlierChunkKept(a, b, n, i, c, k);
    }
    forall c | 0 <= c < i
      ensures PixelAt(b, n, c) == PixelAt(a, n, c)
    {
      assert At(b, n, c, 0) == At(a, n, c, 0);
      assert At(b, n, c, 1) == At(a, n, c, 1);
      assert At(b, n, c, 2) == At(a, n, c, 2);
    }
  }

  /** One step of `update_pixels`: rewriting chunk `i` from its own, still
      untouched, colour extends the rewritten prefix by one chunk. */
  lemma RewriteStep(p: seq<Byte>, q: seq<Byte>, n: nat, f: PixelMap, i: nat)
    requires 3 <= n && |q| == |p| && i < |p| / n && RewrittenUpTo(p, q, n, f, i)
    ensures PixelAt(q, n, i) == PixelAt(p, n, i)
    ensures RewrittenUpTo(p, WriteColour(q, n, i, f(PixelAt(q, n, i))), n, f, i + 1)
  {
    ChunkFits(i, n, |p|);
    var o := i * n;
    var q' := WriteColour(q, n, i, f(PixelAt(q, n, i)));
    EarlierChunksKept(q, q', n, i);
    assert (i + 1) * n == o + n;
  }

  // ---------------------------------------------------------------------
  // Image

  /** `Image<N>`: a mutably borrowed byte buffer read as `size` pixels of
      `stride` (the const parameter `N`) bytes each. */
  class Image {
    const pixels: array<Byte>
    const stride: nat
    const size: nat

    /** `chunks_exact(N)` followed by `p[2]` needs at least three bytes a chunk. */
    ghost predicate Valid()
    {
      3 <= stride && size == pixels.Length / stride
    }

    /** `Image::new`: the pixel count is the length divided by `N`, rounded down. */
    constructor (pixels: array<Byte>, stride: nat)
      requires 3 <= stride
      ensures this.pixels == pixels && this.stride == stride
      ensures size == pixels.Length / stride
      ensures Valid()
    {
      this.pixels := pixels;
      this.stride := stride;
      size := pixels.Length / stride;
    }

    /** `intensities`: one intensity per pixel. */
    function Intensities(): (xs: seq<Byte>)
      reads pixels
      requires Valid()
      ensures |xs| == size
      ensures forall c :: 0 <= c < size ==> xs[c] == Intensity(PixelAt(pixels[..], stride, c))
    {
      IntensitiesOf(pixels[..], stride)
    }

    /** `len`: the number of pixels, which is the number of intensities. */
    function Len(): (count: nat)
      reads pixels
      requires Valid()
      ensures count == |Intensities()|
    {
      size
    }

    /** `update_pixels`: rewrites the colour of every full chunk, in place, with
        `f` of its old colour. */
    method UpdatePixels(f: PixelMap)
      requires Valid()
      modifies pixels
      ensures Rewrites(old(pixels[..]), pixels[..], stride, f)
    {
      ghost var p0 := pixels[..];
      var i := 0;
      while i < size
        invariant 0 <= i <= size
        invariant RewrittenUpTo(p0, pixels[..], stride, f, i)
      {
        ghost var before := pixels[..];
        ChunkFits(i, stride, pixels.Length);
        var o := i * stride;
        var rgb := f(Rgb(pixels[o], pixels[o + 1], pixels[o + 2]));
        pixels[o] := rgb.r;
        pixels[o + 1] := rgb.g;
        pixels[o + 2] := rgb.b;
        RewriteStep(p0, before, stride, f, i);
        assert pixels[..] == WriteColour(before, stride, i, rgb);
        i := i + 1;
      }
    }
  }

  /** The first half of `Pdf::new`: counts how many pixels have each intensity.
      Every intensity is a `u8`, so every bin index is below 256. */
  method Histogram(image: Image) returns (histogram: seq<nat>)
    requires image.Valid()
    ensures histogram == HistogramOf(image.Intensities())
    ensures |histogram| == 256
    ensures forall k :: 0 <= k < 256 ==> histogram[k] == multiset(image.Intensities())[k]
    ensures Sum(histogram) == image.Len()
  {
    var xs := image.Intensities();
    var bins := new nat[256](_ => 0);
    assert bins[..] == HistogramOf(xs[..0]);
    for i := 0 to |xs|
      invariant bins[..] == HistogramOf(xs[..i])
    {
      HistogramOfPrefix(xs, i);
      bins[xs[i]] := bins[xs[i]] + 1;
    }
    assert xs[..|xs|] == xs;
    histogram := bins[..];
  }

  // ---------------------------------------------------------------------
  // Driver

  /** `Agcwd`: the enhancer with its weighting exponent `alpha`. */
  class Agcwd {
    const alpha: real

    /** `Agcwd::new`. */
    constructor (alpha: real)
      ensures this.alpha == alpha
    {
      this.alpha := alpha;
    }

    /** `enhance_image::<N>`: histogram of the intensities, then the map built
        from it, then the rewrite of every pixel with that map. */
    method EnhanceImage(pixels: array<Byte>, n: nat, build: CurveBuilder)
      requires 3 <= n
      modifies pixels
      ensures Rewrites(old(pixels[..]), pixels[..], n,
                       build(alpha, HistogramOf(IntensitiesOf(old(pixels[..]), n))))
    {
      var image := new Image(pixels, n);
      var histogram := Histogram(image);
      var f := build(alpha, histogram);
      image.UpdatePixels(f);
    }

    /** `enhance_rgb_image`: three bytes a pixel. */
    method EnhanceRgbImage(pixels: array<Byte>, build: CurveBuilder)
      modifies pixels
      ensures Rewrites(old(pixels[..]), pixels[..], 3,
                       build(alpha, HistogramOf(IntensitiesOf(old(pixels[..]), 3))))
    {
      EnhanceImage(pixels, 3, build);
    }

    /** `enhance_rgba_image`: four bytes a pixel; the alpha bytes are never
        written. */
    method EnhanceRgbaImage(pixels: array<Byte>, build: CurveBuilder)
      modifies pixels
      ensures Rewrites(old(pixels[..]), pixels[..], 4,
                       build(alpha, HistogramOf(IntensitiesOf(old(pixels[..]), 4))))
      ensures forall j :: 0 <= j < pixels.Length && j % 4 == 3 ==> pixels[j] == old(pixels[j])
    {
      EnhanceImage(pixels, 4, build);
      RewriteKeepsAlpha(old(pixels[..]), pixels[..],
                        build(alpha, HistogramOf(IntensitiesOf(old(pixels[..]), 4))));
    }
  }
}
