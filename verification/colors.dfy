/** Colours (color.rs): three real channels, the named constants, 8-bit
    quantisation and the arithmetic operator implementations. */
module Colors {
  import opened Maths

  /** A `u8`. */
  type Byte = x: int | 0 <= x < 256

  /** An `[u8; 3]` pixel. */
  type Rgb = s: seq<Byte> | |s| == 3 witness [0, 0, 0]

  datatype Color = Color(r: real, g: real, b: real)

  const BLACK: Color := Color(0.0, 0.0, 0.0)
  const WHITE: Color := Color(1.0, 1.0, 1.0)
  /** As written: the red channel is 255.0, not 1.0 (see ConstantsQuantize). */
  const RED: Color := Color(255.0, 0.0, 0.0)
  const GREEN: Color := Color(0.0, 1.0, 0.0)
  const BLUE: Color := Color(0.0, 0.0, 1.0)

  /** One channel of `to_slice`: `(255.0 * x).max(0.0).min(255.0) as u8`;
      the cast truncates a value already in [0, 255]. */
  function Quantize(x: real): (q: Byte)
    ensures x <= 0.0 ==> q == 0
    ensures x >= 1.0 ==> q == 255
    ensures 0.0 <= x <= 1.0 ==> q as real <= 255.0 * x < q as real + 1.0
  {
    Min(Max(255.0 * x, 0.0), 255.0).Floor
  }

  lemma QuantizeMonotone(x: real, y: real)
    requires x <= y
    ensures Quantize(x) <= Quantize(y)
  {
  }

  /** `Color::to_slice` (and `to_rgb`, `to_vec_u8`, which wrap the same bytes). */
  function ToSlice(c: Color): (s: Rgb)
    ensures s[0] == Quantize(c.r) && s[1] == Quantize(c.g) && s[2] == Quantize(c.b)
  {
    [Quantize(c.r), Quantize(c.g), Quantize(c.b)]
  }

  /** `x.max(0.0).min(1.0)`. */
  function Clamp01(x: real): (y: real)
    ensures 0.0 <= y <= 1.0
    ensures 0.0 <= x <= 1.0 ==> y == x
    ensures x < 0.0 ==> y == 0.0
    ensures x > 1.0 ==> y == 1.0
  {
    Min(Max(x, 0.0), 1.0)
  }

  /** `Color::to_vec_f32`. */
  function ToVecF32(c: Color): (v: seq<real>)
    ensures |v| == 3
    ensures forall k | 0 <= k < 3 :: 0.0 <= v[k] <= 1.0
    ensures v[0] == Clamp01(c.r) && v[1] == Clamp01(c.g) && v[2] == Clamp01(c.b)
  {
    [Clamp01(c.r), Clamp01(c.g), Clamp01(c.b)]
  }

  /** `Color::from_rgb`: each byte divided by 255. */
  function FromRgb(r: Byte, g: Byte, b: Byte): (c: Color)
    ensures 0.0 <= c.r <= 1.0 && 0.0 <= c.g <= 1.0 && 0.0 <= c.b <= 1.0
    ensures c.r * 255.0 == r as real && c.g * 255.0 == g as real && c.b * 255.0 == b as real
  {
    Color(r as real / 255.0, g as real / 255.0, b as real / 255.0)
  }

  /** Decoding a pixel and quantising it again gives back the same bytes. */
  lemma FromRgbToSliceRoundTrip(r: Byte, g: Byte, b: Byte)
    ensures ToSlice(FromRgb(r, g, b)) == [r, g, b]
  {
    var c := FromRgb(r, g, b);
    assert 255.0 * c.r == r as real && 255.0 * c.g == g as real && 255.0 * c.b == b as real;
    assert Quantize(c.r) == r && Quantize(c.g) == g && Quantize(c.b) == b;
  }

  lemma ConstantsQuantize()
    ensures ToSlice(BLACK) == [0, 0, 0]
    ensures ToSlice(WHITE) == [255, 255, 255]
    ensures ToSlice(RED) == [255, 0, 0]
    ensures ToSlice(GREEN) == [0, 255, 0] && ToSlice(BLUE) == [0, 0, 255]
  {
  }

  /** `Color::sqrt`, channel by channel; `sqrt` is the square root of the
      platform, taken as a parameter. */
  function Sqrt(c: Color, sqrt: real -> real): (s: Color)
    requires SqrtFunction(sqrt)
    ensures c.r >= 0.0 ==> IsSqrt(c.r, s.r)
    ensures c.g >= 0.0 ==> IsSqrt(c.g, s.g)
    ensures c.b >= 0.0 ==> IsSqrt(c.b, s.b)
  {
    Color(sqrt(c.r), sqrt(c.g), sqrt(c.b))
  }

  // Operator implementations (`impl Add for Color`, ...).

  function Add(a: Color, b: Color): Color {
    Color(a.r + b.r, a.g + b.g, a.b + b.b)
  }

  function Sub(a: Color, b: Color): Color {
    Color(a.r - b.r, a.g - b.g, a.b - b.b)
  }

  /** `Color * Color`: attenuation, channel by channel. */
  function Mul(a: Color, b: Color): Color {
    Color(a.r * b.r, a.g * b.g, a.b * b.b)
  }

  /** `Color * f32`. */
  function Scale(c: Color, s: real): Color {
    Color(c.r * s, c.g * s, c.b * s)
  }

  /** `f32 * Color`, implemented as `other * self`. */
  function ScaleLeft(s: real, c: Color): Color {
    Scale(c, s)
  }

  function Neg(c: Color): Color {
    Color(-c.r, -c.g, -c.b)
  }

  /** `Color / f32`. */
  function DivScalar(c: Color, s: real): Color
    requires s != 0.0
  {
    Color(c.r / s, c.g / s, c.b / s)
  }

  /** `Color / Color`. */
  function Div(a: Color, b: Color): Color
    requires b.r != 0.0 && b.g != 0.0 && b.b != 0.0
  {
    Color(a.r / b.r, a.g / b.g, a.b / b.b)
  }

  /** `f32 / Color`, implemented as `other / self`: the colour divided by the
      scalar, not the scalar divided by each channel. */
  function ScalarDiv(s: real, c: Color): Color
    requires s != 0.0
  {
    DivScalar(c, s)
  }

  /** Scaling by zero, scaling black, or attenuating by black gives black. */
  lemma ScaleZero(c: Color, s: real)
    ensures Scale(c, 0.0) == BLACK && Scale(BLACK, s) == BLACK && Mul(c, BLACK) == BLACK
  {
  }

  /** Addition and subtraction are inverse, channel by channel. */
  lemma AddSubLaws(a: Color, b: Color)
    ensures Add(a, b) == Add(b, a)
    ensures Sub(Add(a, b), b) == a
    ensures Add(a, BLACK) == a
    ensures Add(a, Neg(a)) == BLACK
    ensures Sub(a, b) == Add(a, Neg(b))
  {
  }

  /** Negation is scaling by -1 and undoes itself; multiplication by WHITE is the identity. */
  lemma MulLaws(a: Color, b: Color, s: real)
    ensures Neg(Neg(a)) == a
    ensures Neg(a) == Scale(a, -1.0)
    ensures Mul(a, b) == Mul(b, a)
    ensures Mul(a, WHITE) == a
    ensures Scale(a, s) == Mul(a, Color(s, s, s))
  {
  }

  /** `s * c == c * s`. */
  lemma ScaleCommutes(s: real, c: Color)
    ensures ScaleLeft(s, c) == Scale(c, s)
    ensures ScaleLeft(s, c) == Color(s * c.r, s * c.g, s * c.b)
  {
  }

  /** `s / c` is `c / s`: for `2.0 / WHITE` it gives 0.5 in every channel, not 2.0. */
  lemma ScalarDivIsNotReciprocal()
    ensures ScalarDiv(2.0, WHITE) == Color(0.5, 0.5, 0.5)
    ensures ScalarDiv(2.0, WHITE) != Div(Color(2.0, 2.0, 2.0), WHITE)
  {
  }

  /** For every non-zero `s`, `s / c` is `c` scaled by `1 / s`, and scaling
      it back by `s` gives `c`. */
  lemma ScalarDivScalesDown(s: real, c: Color)
    requires s != 0.0
    ensures ScalarDiv(s, c) == Scale(c, 1.0 / s)
    ensures Scale(ScalarDiv(s, c), s) == c
  {
  }

  /** Division by a scalar undoes scaling by it. */
  lemma DivScalarUndoesScale(c: Color, s: real)
    requires s != 0.0
    ensures DivScalar(Scale(c, s), s) == c
  {
  }
}
