/** Light sources (lights.rs): a directional light infinitely far away and a
    spherical point light. Normalisation, the spherical falloff law and the
    square root behind `length` are parameters. */
module Lights {
  import Maths
  import opened Vectors
  import Colors

  datatype Light =
    | Directional(direction: Vec3, color: Colors.Color, intensity: real)
    | Spherical(pos: Vec3, color: Colors.Color, intensity: real)

  /** A distance that may be infinite, as `f64::INFINITY` is for a
      directional light. */
  datatype Reach = Finite(d: real) | Infinite

  /** `d > reach`: nothing is farther than infinity. */
  predicate Beyond(d: real, reach: Reach) {
    reach.Finite? && d > reach.d
  }

  /** `DirectionalLight::new` and `SphericalLight::new`. */
  function NewDirectional(direction: Vec3, color: Colors.Color, intensity: real): (l: Light)
    ensures l.Directional? && l.direction == direction && l.color == color && l.intensity == intensity
  {
    Directional(direction, color, intensity)
  }

  function NewSpherical(pos: Vec3, color: Colors.Color, intensity: real): (l: Light)
    ensures l.Spherical? && l.pos == pos && l.color == color && l.intensity == intensity
  {
    Spherical(pos, color, intensity)
  }

  /** `Light::rel_direction`: towards the light, seen from `point`. */
  function RelDirection(l: Light, point: Vec3, normalize: Vec3 -> Vec3): (v: Vec3)
    ensures l.Directional? ==> Add(v, l.direction) == Zero
    ensures l.Spherical? ==> v == normalize(Sub(l.pos, point))
  {
    match l
    case Directional(direction, _, _) => Neg(direction)
    case Spherical(pos, _, _) => normalize(Sub(pos, point))
  }

  /** `Light::intensity`: constant for a directional light; for a spherical
      light, `falloff(intensity, r2)` of the squared distance r2. */
  function Intensity(l: Light, point: Vec3, falloff: (real, real) -> real): (i: real)
    ensures l.Directional? ==> i == l.intensity
    ensures l.Spherical? ==> i == falloff(l.intensity, Norm(Sub(l.pos, point)))
  {
    match l
    case Directional(_, _, intensity) => intensity
    case Spherical(pos, _, intensity) => falloff(intensity, Norm(Sub(pos, point)))
  }

  /** `Light::rel_distance`: infinite for a directional light, the Euclidean
      distance for a spherical one. */
  function RelDistance(l: Light, point: Vec3, sqrt: real -> real): (r: Reach)
    requires Maths.SqrtFunction(sqrt)
    ensures r.Infinite? <==> l.Directional?
    ensures r.Finite? ==> Maths.IsSqrt(Norm(Sub(l.pos, point)), r.d)
  {
    match l
    case Directional(_, _, _) => Infinite
    case Spherical(pos, _, _) =>
      NormNonNegative(Sub(pos, point));
      Finite(sqrt(Norm(Sub(pos, point))))
  }
}
