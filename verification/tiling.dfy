/** The byte layout of rendered images (rendering.rs and scene.rs): an RGB
    buffer stores the pixels row by row, three bytes per pixel. A slab is the
    run of rows `j .. j + h`; `threaded_render` cuts the image buffer into
    chunks of `row_h` rows and fills chunk i with the slab starting at row
    `row_h * i`; `threaded_render_v2` maps the i-th pixel to (i % width,
    i / width).

    The colour of a pixel is a parameter `pixel(x, y)`; the rays, samples and
    colour computation behind it are modelled elsewhere or left out. */
module Tiling {
  import opened Wrappers
  import opened Colors

  /** The pixel of the flat pixel index p in an image `width` pixels wide. */
  function PixelOf(width: nat, p: nat): (xy: (nat, nat))
    requires width > 0
    ensures xy.0 < width
  {
    (p % width, p / width)
  }

  /** The flat pixel index of pixel (x, y). */
  function IndexOf(width: nat, x: nat, y: nat): nat {
    y * width + x
  }

  /** Integer division and remainder are the unique quotient and remainder. */
  lemma DivModUnique(n: nat, w: nat, q: nat, r: nat)
    requires w > 0 && r < w && n == q * w + r
    ensures n / w == q && n % w == r
  {
    var q' := n / w;
    var r' := n % w;
    assert n == q' * w + r';
    if q' < q {
      MulMonotone(q' + 1, q, w);
    } else if q < q' {
      MulMonotone(q + 1, q', w);
    }
  }

  lemma MulMonotone(a: nat, b: nat, w: nat)
    requires a <= b
    ensures a * w <= b * w
  {
  }

  /** Whole bands cover the image exactly when the band height divides it. */
  lemma BandsCover(height: nat, rowH: nat)
    requires rowH > 0
    ensures height % rowH == 0 ==> rowH * (height / rowH) == height
  {
  }

  /** `threaded_render_v2`'s pixel mapping is a bijection between
      `[0, width * height)` and the pixel grid. */
  lemma PixelIndexBijection(width: nat, height: nat, p: nat, x: nat, y: nat)
    requires width > 0
    ensures p < width * height ==> PixelOf(width, p).1 < height
    ensures IndexOf(width, PixelOf(width, p).0, PixelOf(width, p).1) == p
    ensures x < width ==> PixelOf(width, IndexOf(width, x, y)) == (x, y)
    ensures x < width && y < height ==> IndexOf(width, x, y) < width * height
  {
    if x < width {
      DivModUnique(IndexOf(width, x, y), width, y, x);
    }
    if x < width && y < height {
      MulMonotone(y + 1, height, width);
      assert (y + 1) * width == y * width + width;
    }
    if p < width * height && p / width >= height {
      MulMonotone(height, p / width, width);
    }
  }

  /** Byte i of the slab of rows `j .. j + h`: channel `i % 3` of pixel
      `i / 3`, counted row by row from (0, j). */
  function SlabByte(width: nat, j: nat, pixel: (nat, nat) -> Rgb, i: nat): Byte
    requires width > 0
  {
    var p := PixelOf(width, i / 3);
    pixel(p.0, j + p.1)[i % 3]
  }

  /** The bytes of the slab of rows `j .. j + h`. */
  function Raster(width: nat, j: nat, h: nat, pixel: (nat, nat) -> Rgb): (s: seq<Byte>)
    ensures |s| == 3 * width * h
  {
    if width == 0 then []
    else seq(3 * width * h, (i: nat) => SlabByte(width, j, pixel, i))
  }

  /** The byte offset of pixel (x, y) in a slab starting at row j:
      `3 * ((y - j) * width + x)`. */
  function PixelOffset(width: nat, j: nat, x: nat, y: nat): nat
    requires j <= y
  {
    3 * IndexOf(width, x, y - j)
  }

  /** Pixel (x, y) of a slab starting at row j is the three bytes at its
      offset. */
  lemma RasterOffset(width: nat, j: nat, h: nat, pixel: (nat, nat) -> Rgb, x: nat, y: nat)
    requires x < width && j <= y < j + h
    ensures PixelOffset(width, j, x, y) + 3 <= 3 * width * h
    ensures Raster(width, j, h, pixel)[PixelOffset(width, j, x, y) .. PixelOffset(width, j, x, y) + 3] == pixel(x, y)
  {
    var n := IndexOf(width, x, y - j);
    var bytes := Raster(width, j, h, pixel);
    PixelIndexBijection(width, h, n, x, y - j);
    assert 3 * n + 3 <= |bytes|;
    forall k | 0 <= k < 3
      ensures bytes[3 * n + k] == pixel(x, y)[k]
    {
      SlabByteAt(width, j, pixel, n, k);
    }
    assert bytes[3 * n .. 3 * n + 3] == pixel(x, y);
  }

  /** Byte p of the pixel-by-pixel order is channel k of pixel p. */
  lemma SlabByteAt(width: nat, j: nat, pixel: (nat, nat) -> Rgb, p: nat, k: nat)
    requires width > 0 && k < 3
    ensures SlabByte(width, j, pixel, 3 * p + k) == pixel(PixelOf(width, p).0, j + PixelOf(width, p).1)[k]
  {
    DivModUnique(3 * p + k, 3, p, k);
  }

  /** Skipping h rows of bytes is starting h rows further down. */
  lemma SlabByteShift(width: nat, j: nat, h: nat, pixel: (nat, nat) -> Rgb, i: nat)
    requires width > 0
    ensures SlabByte(width, j, pixel, i + 3 * width * h) == SlabByte(width, j + h, pixel, i)
  {
    var m := width * h;
    var big := i + 3 * width * h;
    assert big == i + 3 * m;
    SkipWholePixels(i, m);
    var p, k := i / 3, i % 3;
    SkipWholeRows(width, h, p);
    var xy := PixelOf(width, p);
    assert PixelOf(width, big / 3) == (xy.0, xy.1 + h);
    assert SlabByte(width, j, pixel, big) == pixel(xy.0, j + (xy.1 + h))[k];
    assert SlabByte(width, j + h, pixel, i) == pixel(xy.0, (j + h) + xy.1)[k];
  }

  /** Skipping m whole pixels of bytes keeps the channel and moves the pixel by m. */
  lemma SkipWholePixels(i: nat, m: nat)
    ensures (i + 3 * m) / 3 == i / 3 + m && (i + 3 * m) % 3 == i % 3
  {
    DivModUnique(i + 3 * m, 3, i / 3 + m, i % 3);
  }

  /** Skipping h whole rows of pixels keeps the column and moves the row by h. */
  lemma SkipWholeRows(width: nat, h: nat, n: nat)
    requires width > 0
    ensures PixelOf(width, n + width * h) == (PixelOf(width, n).0, PixelOf(width, n).1 + h)
  {
    var q, r := n / width, n % width;
    assert n + width * h == (q + h) * width + r by {
      assert width * h == h * width;
      assert (q + h) * width == q * width + h * width;
    }
    DivModUnique(n + width * h, width, q + h, r);
  }

  /** Two slabs one above the other make the slab of both. */
  lemma RasterAppend(width: nat, j: nat, h1: nat, h2: nat, pixel: (nat, nat) -> Rgb)
    ensures Raster(width, j, h1, pixel) + Raster(width, j + h1, h2, pixel) == Raster(width, j, h1 + h2, pixel)
  {
    if width > 0 {
      var a := Raster(width, j, h1, pixel);
      var b := Raster(width, j + h1, h2, pixel);
      var c := Raster(width, j, h1 + h2, pixel);
      RasterLength(width, h1, h2);
      forall i | 0 <= i < |c|
        ensures (a + b)[i] == c[i]
      {
        RasterAppendAt(width, j, h1, h2, pixel, i);
      }
    }
  }

  /** Byte i of two stacked slabs is byte i of the slab of both. */
  lemma RasterAppendAt(width: nat, j: nat, h1: nat, h2: nat, pixel: (nat, nat) -> Rgb, i: nat)
    requires width > 0 && i < 3 * width * h1 + 3 * width * h2
    ensures i < 3 * width * (h1 + h2)
    ensures (Raster(width, j, h1, pixel) + Raster(width, j + h1, h2, pixel))[i] == Raster(width, j, h1 + h2, pixel)[i]
  {
    RasterLength(width, h1, h2);
    var n1 := 3 * width * h1;
    RasterAt(width, j, h1 + h2, pixel, i);
    if i < n1 {
      RasterAt(width, j, h1, pixel, i);
    } else {
      RasterAt(width, j + h1, h2, pixel, i - n1);
      SlabByteShift(width, j, h1, pixel, i - n1);
    }
  }

  /** Byte i of a slab's raster. */
  lemma RasterAt(width: nat, j: nat, h: nat, pixel: (nat, nat) -> Rgb, i: nat)
    requires width > 0 && i < 3 * width * h
    ensures Raster(width, j, h, pixel)[i] == SlabByte(width, j, pixel, i)
  {
  }

  /** The raster of two stacked slabs is as long as both. */
  lemma RasterLength(width: nat, h1: nat, h2: nat)
    ensures 3 * width * (h1 + h2) == 3 * width * h1 + 3 * width * h2
  {
  }

  /** The bytes of the first `x` pixels of row y. */
  function RowPrefix(width: nat, y: nat, x: nat, pixel: (nat, nat) -> Rgb): (s: seq<Byte>)
    requires x <= width
    ensures |s| == 3 * x
  {
    seq(3 * x, (i: nat) => pixel(i / 3, y)[i % 3])
  }

  lemma RowPrefixStep(width: nat, y: nat, x: nat, pixel: (nat, nat) -> Rgb)
    requires x < width
    ensures RowPrefix(width, y, x, pixel) + pixel(x, y) == RowPrefix(width, y, x + 1, pixel)
  {
    var a := RowPrefix(width, y, x, pixel);
    var c := RowPrefix(width, y, x + 1, pixel);
    forall i | 0 <= i < |c|
      ensures (a + pixel(x, y))[i] == c[i]
    {
      if i >= 3 * x {
        DivModUnique(i, 3, x, i - 3 * x);
      }
    }
  }

  /** A full row is the slab of that one row. */
  lemma RowIsRaster(width: nat, y: nat, pixel: (nat, nat) -> Rgb)
    requires width > 0
    ensures RowPrefix(width, y, width, pixel) == Raster(width, y, 1, pixel)
  {
    var a := RowPrefix(width, y, width, pixel);
    var c := Raster(width, y, 1, pixel);
    forall i | 0 <= i < |c|
      ensures a[i] == c[i]
    {
      DivModUnique(i / 3, width, 0, i / 3);
    }
  }

  /** `render_slab(j, h)`: rows `j .. j + h`, each from column 0 to the last,
      three bytes per pixel. */
  method RenderSlab(width: nat, j: nat, h: nat, pixel: (nat, nat) -> Rgb) returns (pixels: seq<Byte>)
    ensures |pixels| == 3 * width * h
    ensures pixels == Raster(width, j, h, pixel)
  {
    pixels := [];
    var y := j;
    while y < j + h
      invariant j <= y <= j + h
      invariant pixels == Raster(width, j, y - j, pixel)
    {
      var row := [];
      var x := 0;
      while x < width
        invariant x <= width
        invariant row == RowPrefix(width, y, x, pixel)
      {
        RowPrefixStep(width, y, x, pixel);
        row := row + pixel(x, y);
        x := x + 1;
      }
      if width > 0 {
        RowIsRaster(width, y, pixel);
      }
      RasterAppend(width, j, y - j, 1, pixel);
      pixels := pixels + row;
      y := y + 1;
    }
  }

  datatype RenderError =
    /** A zero width or a zero band height, both of which panic. A zero width
        makes the chunk size of `par_chunks_mut` zero. A zero `row_h` does too
        in `Scene::threaded_render`, but `Camera::threaded_render` panics
        before that, dividing `height / row_h` for the progress bar. */
    | ZeroChunkSize
    /** `copy_from_slice` between a shorter last chunk and a full slab. */
    | SlabLengthMismatch(chunk: nat, slab: nat)

  /** `threaded_render(row_h)`: the `3 * width * height` image bytes cut into
      chunks of `3 * width * row_h`; chunk i is filled with the slab of rows
      `row_h * i .. row_h * (i + 1)`. It succeeds exactly when the chunks
      are non-empty and the rows divide evenly; then the image is the whole
      raster, each chunk holding its own rows. */
  method ThreadedRender(width: nat, height: nat, rowH: nat, pixel: (nat, nat) -> Rgb)
    returns (r: Result<seq<Byte>, RenderError>)
    ensures r.Success? <==> width > 0 && rowH > 0 && height % rowH == 0
    ensures r.Success? ==> r.value == Raster(width, 0, height, pixel)
    ensures r.Failure? && width > 0 && rowH > 0 ==>
              r.error == SlabLengthMismatch(3 * width * (height % rowH), 3 * width * rowH)
  {
    // either panic: the zero chunk size, or the earlier `height / row_h`
    if width == 0 || rowH == 0 {
      return Failure(ZeroChunkSize);
    }
    var img := [];
    var full := height / rowH;
    var i := 0;
    while i < full
      invariant i <= full
      invariant img == Raster(width, 0, rowH * i, pixel)
    {
      var slab := RenderSlab(width, rowH * i, rowH, pixel);
      RasterAppend(width, 0, rowH * i, rowH, pixel);
      assert rowH * i + rowH == rowH * (i + 1);
      img := img + slab;
      i := i + 1;
    }
    BandsCover(height, rowH);
    if height % rowH != 0 {
      return Failure(SlabLengthMismatch(3 * width * (height % rowH), 3 * width * rowH));
    }
    return Success(img);
  }

  /** `threaded_render_v2`: the i-th 3-byte chunk of the buffer gets pixel
      (i % width, i / width); before the vertical flip this is the raster of
      the whole image. A zero-width image has no chunks and stays empty. */
  method ThreadedRenderV2(width: nat, height: nat, pixel: (nat, nat) -> Rgb) returns (img: seq<Byte>)
    ensures img == Raster(width, 0, height, pixel)
    ensures forall p | 0 <= p < width * height ::
              img[3 * p .. 3 * p + 3] == pixel(PixelOf(width, p).0, PixelOf(width, p).1)
  {
    img := [];
    if width == 0 {
      // A zero-width image has no three-byte chunks.
      return;
    }
    var n := width * height;
    var p := 0;
    while p < n
      invariant p <= n
      invariant |img| == 3 * p
      invariant forall i | 0 <= i < |img| :: img[i] == SlabByte(width, 0, pixel, i)
    {
      AppendPixel(width, pixel, img, p);
      img := img + pixel(PixelOf(width, p).0, PixelOf(width, p).1);
      p := p + 1;
    }
    assert img == Raster(width, 0, height, pixel);
    forall q | 0 <= q < width * height
      ensures img[3 * q .. 3 * q + 3] == pixel(PixelOf(width, q).0, PixelOf(width, q).1)
    {
      RasterChunk(width, height, pixel, q);
    }
  }

  /** Appending pixel p to the bytes of pixels `0 .. p` gives the bytes of
      pixels `0 .. p + 1`. */
  lemma AppendPixel(width: nat, pixel: (nat, nat) -> Rgb, img: seq<Byte>, p: nat)
    requires width > 0 && |img| == 3 * p
    requires forall i | 0 <= i < |img| :: img[i] == SlabByte(width, 0, pixel, i)
    ensures forall i | 0 <= i < |img| + 3 ::
              (img + pixel(PixelOf(width, p).0, PixelOf(width, p).1))[i] == SlabByte(width, 0, pixel, i)
  {
    var px := pixel(PixelOf(width, p).0, PixelOf(width, p).1);
    forall i | 3 * p <= i < 3 * p + 3
      ensures (img + px)[i] == SlabByte(width, 0, pixel, i)
    {
      SlabByteAt(width, 0, pixel, p, i - 3 * p);
    }
  }

  /** Chunk q of the whole image's raster is pixel (q % width, q / width). */
  lemma RasterChunk(width: nat, height: nat, pixel: (nat, nat) -> Rgb, q: nat)
    requires width > 0 && q < width * height
    ensures 3 * q + 3 <= 3 * width * height
    ensures Raster(width, 0, height, pixel)[3 * q .. 3 * q + 3] == pixel(PixelOf(width, q).0, PixelOf(width, q).1)
  {
    var xy := PixelOf(width, q);
    PixelIndexBijection(width, height, q, xy.0, xy.1);
    RasterOffset(width, 0, height, pixel, xy.0, xy.1);
  }

  /** The image row that sample row y lands in: `height - 1 - y`. */
  function FlipRow(height: nat, y: nat): (r: nat)
    requires y < height
    ensures r < height
  {
    height - 1 - y
  }

  /** Flipping twice gives back the row, so the flip is a bijection of
      `[0, height)`. */
  lemma FlipRowInvolution(height: nat, y: nat, y': nat)
    requires y < height && y' < height
    ensures FlipRow(height, FlipRow(height, y)) == y
    ensures FlipRow(height, y) == FlipRow(height, y') ==> y == y'
  {
  }

  /** A black image `width` by `height`, as `RgbImage::new` makes it. */
  function BlackImage(width: nat, height: nat): (g: seq<seq<Rgb>>)
    ensures |g| == height && forall r | 0 <= r < height :: |g[r]| == width
    ensures forall r, x | 0 <= r < height && 0 <= x < width :: g[r][x] == [0, 0, 0]
  {
    seq(height, r => seq(width, x => [0, 0, 0]))
  }

  /** `render`: sample (x, y) is written with `put_pixel(x, height - 1 - y)`,
      so image row r shows sample row `height - 1 - r`. */
  method Render(width: nat, height: nat, sample: (nat, nat) -> Rgb) returns (img: seq<seq<Rgb>>)
    ensures |img| == height
    ensures forall r | 0 <= r < height :: |img[r]| == width
    ensures forall r, x | 0 <= r < height && 0 <= x < width :: img[r][x] == sample(x, FlipRow(height, r))
  {
    img := BlackImage(width, height);
    var y := 0;
    while y < height
      invariant y <= height
      invariant |img| == height
      invariant forall r | 0 <= r < height :: |img[r]| == width
      invariant forall r, x | height - y <= r < height && 0 <= x < width :: img[r][x] == sample(x, FlipRow(height, r))
    {
      var row := FlipRow(height, y);
      var x := 0;
      while x < width
        invariant x <= width
        invariant |img| == height
        invariant forall r | 0 <= r < height :: |img[r]| == width
        invariant forall r, x' | height - y <= r < height && 0 <= x' < width :: img[r][x'] == sample(x', FlipRow(height, r))
        invariant forall x' | 0 <= x' < x :: img[row][x'] == sample(x', y)
      {
        var line: seq<Rgb> := img[row][x := sample(x, y)];
        img := img[row := line];
        x := x + 1;
      }
      y := y + 1;
    }
  }

  /** One byte of `bvh_render`: `(255.99 * v).min(255.0) as u8` for a channel
      v already clamped to [0, 1]. */
  function BvhByte(v: real): (q: Byte)
    requires 0.0 <= v <= 1.0
    ensures q as real <= 255.99 * v < q as real + 1.0
    ensures 255.99 * v >= 255.0 ==> q == 255
    ensures v == 1.0 ==> q == 255
  {
    Maths.Min(255.99 * v, 255.0).Floor
  }

  lemma BvhByteMonotone(v: real, w: real)
    requires 0.0 <= v <= w <= 1.0
    ensures BvhByte(v) <= BvhByte(w)
  {
  }

  /** The three bytes of a pixel of `bvh_render`, from `to_vec_f32`. */
  function BvhPixel(c: Color): (px: Rgb)
    ensures px[0] == BvhByte(ToVecF32(c)[0]) && px[1] == BvhByte(ToVecF32(c)[1]) && px[2] == BvhByte(ToVecF32(c)[2])
  {
    var v := ToVecF32(c);
    [BvhByte(v[0]), BvhByte(v[1]), BvhByte(v[2])]
  }

  /** `bvh_render`: rows from `height - 1` down to 0, each from column 0,
      three bytes per pixel; `shade(i, j)` is the averaged, square-rooted
      colour of pixel (i, j). The buffer is the raster in which buffer row r
      shows pixel row `height - 1 - r`. */
  method BvhRender(width: nat, height: nat, shade: (nat, nat) -> Color) returns (pixels: seq<Byte>)
    ensures |pixels| == 3 * width * height
    ensures pixels == Raster(width, 0, height, (x: nat, r: nat) => BvhPixel(shade(x, if r < height then FlipRow(height, r) else 0)))
  {
    var flipped := (x: nat, r: nat) => BvhPixel(shade(x, if r < height then FlipRow(height, r) else 0));
    pixels := [];
    var j: nat := height;
    while j > 0
      invariant j <= height
      invariant pixels == Raster(width, 0, height - j, flipped)
    {
      j := j - 1;
      var r := height - 1 - j;
      var row := [];
      var i := 0;
      while i < width
        invariant i <= width
        invariant row == RowPrefix(width, r, i, flipped)
      {
        RowPrefixStep(width, r, i, flipped);
        assert flipped(i, r) == BvhPixel(shade(i, j));
        row := row + BvhPixel(shade(i, j));
        i := i + 1;
      }
      if width > 0 {
        RowIsRaster(width, r, flipped);
      }
      RasterAppend(width, 0, r, 1, flipped);
      pixels := pixels + row;
    }
  }
}
