/** Textures (texture.rs): a solid colour, a 3-D checker board, and an image
    sampled at uv coordinates. The image is a width, a height and a pixel
    function; the image library's `get_pixel(x, y)` takes the column first
    and panics outside `x < width`, `y < height`. `sin` is a parameter. */
module Textures {
  import opened Wrappers
  import opened Maths
  import opened Vectors
  import opened Colors

  /** `clamp`: `value.min(upper).max(lower)`. */
  function Clamp(value: real, lower: real, upper: real): (r: real)
    ensures lower <= r
    ensures lower <= upper ==> r <= upper
    ensures lower <= value <= upper ==> r == value
    ensures value < lower ==> r == lower
    ensures lower <= upper < value ==> r == upper
    ensures upper < lower ==> r == lower
  {
    Max(Min(value, upper), lower)
  }

  datatype Picture = Picture(width: nat, height: nat, pixel: (nat, nat) -> Rgb)

  datatype LookupError = EmptyImage | OutOfBounds

  /** `get_pixel(x, y)`: column x, row y. */
  function GetPixel(p: Picture, x: nat, y: nat): (r: Result<Rgb, LookupError>)
    ensures r.Success? <==> x < p.width && y < p.height
    ensures r.Success? ==> r.value == p.pixel(x, y)
  {
    if x < p.width && y < p.height then Success(p.pixel(x, y)) else Failure(OutOfBounds)
  }

  /** `(t * n as f32) as u32`, then pulled back to `n - 1` when it reaches `n`.
      `t` is already clamped to [0, 1]. */
  function CellIndex(t: real, n: nat): (i: nat)
    requires 0.0 <= t <= 1.0 && n >= 1
    ensures i < n
    ensures i as real <= t * n as real
    ensures t < 1.0 ==> t * n as real < i as real + 1.0
    ensures t == 1.0 ==> i == n - 1
  {
    ScaledUnit(t, n as real);
    if (t * n as real).Floor >= n then n - 1 else (t * n as real).Floor
  }

  lemma ScaledUnit(t: real, k: real)
    requires 0.0 <= t <= 1.0 && k >= 0.0
    ensures 0.0 <= t * k <= k
    ensures t < 1.0 && k > 0.0 ==> t * k < k
  {
  }

  /** The column of `Image::get_color_uv`: u clamped to [0, 1]. */
  function ColumnIndex(u: real, width: nat): (i: nat)
    requires width >= 1
    ensures i < width
  {
    CellIndex(Clamp(u, 0.0, 1.0), width)
  }

  /** The row of `Image::get_color_uv`: v clamped and flipped, so v = 1 is
      the top row 0. */
  function RowIndex(v: real, height: nat): (j: nat)
    requires height >= 1
    ensures j < height
  {
    CellIndex(1.0 - Clamp(v, 0.0, 1.0), height)
  }

  function PixelColor(px: Rgb): Color {
    FromRgb(px[0], px[1], px[2])
  }

  /** `Image::get_color_uv` as written: the row index is passed as the
      column and the column index as the row. An empty image underflows
      `width - 1`. */
  function ImageColorAsWritten(p: Picture, uv: (real, real)): (r: Result<Color, LookupError>)
    ensures p.width == 0 || p.height == 0 ==> r == Failure(EmptyImage)
    ensures p.width >= 1 && p.height >= 1 ==>
              (r.Success? <==> RowIndex(uv.1, p.height) < p.width && ColumnIndex(uv.0, p.width) < p.height)
    ensures r.Success? ==> r.value == PixelColor(p.pixel(RowIndex(uv.1, p.height), ColumnIndex(uv.0, p.width)))
  {
    if p.width == 0 || p.height == 0 then Failure(EmptyImage)
    else
      var i := ColumnIndex(uv.0, p.width);
      var j := RowIndex(uv.1, p.height);
      match GetPixel(p, j, i)
      case Success(px) => Success(PixelColor(px))
      case Failure(e) => Failure(e)
  }

  /** At the corner uv = (1, 0) the lookup as written stays in bounds only
      for a square image. */
  lemma AsWrittenFailsOffSquare(p: Picture)
    requires p.width >= 1 && p.height >= 1
    ensures ImageColorAsWritten(p, (1.0, 0.0)).Success? <==> p.width == p.height
  {
    assert ColumnIndex(1.0, p.width) == p.width - 1;
    assert RowIndex(0.0, p.height) == p.height - 1;
  }

  /** A concrete picture two pixels wide and one high. */
  function WideStrip(): Picture {
    Picture(2, 1, (x: nat, y: nat) => [0, 0, 0])
  }

  lemma AsWrittenPanicsOnWideStrip()
    ensures ImageColorAsWritten(WideStrip(), (1.0, 0.0)) == Failure(OutOfBounds)
  {
    AsWrittenFailsOffSquare(WideStrip());
  }

  /** `Image::get_color_uv` with the column first, as the index computation
      intends: every uv of a non-empty image reads the pixel at the clamped
      column and the flipped row. */
  function ImageColor(p: Picture, uv: (real, real)): (r: Result<Color, LookupError>)
    ensures r.Success? <==> p.width >= 1 && p.height >= 1
    ensures r.Success? ==> r.value == PixelColor(p.pixel(ColumnIndex(uv.0, p.width), RowIndex(uv.1, p.height)))
    ensures r.Success? ==> 0.0 <= r.value.r <= 1.0 && 0.0 <= r.value.g <= 1.0 && 0.0 <= r.value.b <= 1.0
  {
    if p.width == 0 || p.height == 0 then Failure(EmptyImage)
    else
      var i := ColumnIndex(uv.0, p.width);
      var j := RowIndex(uv.1, p.height);
      match GetPixel(p, i, j)
      case Success(px) => Success(PixelColor(px))
      case Failure(e) => Failure(e)
  }

  /** The corrected lookup reads the top-right pixel at uv = (1, 1)... */
  lemma ImageCorners(p: Picture)
    requires p.width >= 1 && p.height >= 1
    ensures ImageColor(p, (1.0, 1.0)) == Success(PixelColor(p.pixel(p.width - 1, 0)))
    ensures ImageColor(p, (0.0, 0.0)) == Success(PixelColor(p.pixel(0, p.height - 1)))
  {
    assert ColumnIndex(1.0, p.width) == p.width - 1;
    assert RowIndex(1.0, p.height) == 0;
    assert ColumnIndex(0.0, p.width) == 0;
    assert RowIndex(0.0, p.height) == p.height - 1;
  }

  datatype Texture =
    | SolidColor(color: Color)
    | CheckerBoard(color1: Color, color2: Color, scale: real)
    | Image(picture: Picture)

  /** The sign of the checker board at a point. */
  function CheckerSign(scale: real, point: Vec3, sin: real -> real): real {
    Product3(sin(Times(scale, point.x)), sin(Times(scale, point.y)), sin(Times(scale, point.z)))
  }

  function Times(a: real, b: real): real {
    a * b
  }

  function Product3(a: real, b: real, c: real): real {
    a * b * c
  }

  /** `CheckerBoard::get_color_uv`: the first colour where the sine product
      is negative, the second elsewhere. */
  function CheckerColor(color1: Color, color2: Color, scale: real, point: Vec3, sin: real -> real): (c: Color)
    ensures c == color1 || c == color2
    ensures color1 != color2 ==> (c == color1 <==> CheckerSign(scale, point, sin) < 0.0)
  {
    if CheckerSign(scale, point, sin) < 0.0 then color1 else color2
  }

  lemma NegateFirstFactor(a: real, a': real, b: real, c: real)
    requires a' == -a
    ensures Product3(a', b, c) == -Product3(a, b, c)
  {
  }

  /** The point mirrored in the plane x = 0. */
  function MirrorX(point: Vec3): Vec3 {
    Vec3(-point.x, point.y, point.z)
  }

  /** Where the sine of the mirrored coordinate is the negated sine of the
      coordinate (as for any odd `sin`), mirroring a point in the plane
      x = 0 negates the sine product, so wherever it is not zero the two
      colours swap: the board alternates. */
  lemma CheckerAlternates(color1: Color, color2: Color, scale: real, point: Vec3, sin: real -> real)
    requires sin(Times(scale, -point.x)) == -sin(Times(scale, point.x))
    ensures CheckerSign(scale, MirrorX(point), sin) == -CheckerSign(scale, point, sin)
    ensures color1 != color2 && CheckerSign(scale, point, sin) != 0.0 ==>
              CheckerColor(color1, color2, scale, MirrorX(point), sin) != CheckerColor(color1, color2, scale, point, sin)
  {
    NegateFirstFactor(sin(Times(scale, point.x)), sin(Times(scale, -point.x)),
                      sin(Times(scale, point.y)), sin(Times(scale, point.z)));
  }

  /** `Texture::get_color_uv`: dispatch on the variant. The image arm uses
      the corrected lookup `ImageColor`; the lookup as written is
      `ImageColorAsWritten`. */
  function GetColorUv(t: Texture, uv: (real, real), point: Vec3, sin: real -> real): (r: Result<Color, LookupError>)
    ensures t.SolidColor? ==> r == Success(t.color)
    ensures t.CheckerBoard? ==> r == Success(CheckerColor(t.color1, t.color2, t.scale, point, sin))
    ensures t.Image? ==> r == ImageColor(t.picture, uv)
  {
    match t
    case SolidColor(c) => Success(c)
    case CheckerBoard(c1, c2, s) => Success(CheckerColor(c1, c2, s, point, sin))
    case Image(p) => ImageColor(p, uv)
  }
}
