/** The sampling helpers of rendering.rs. Each rejection loop draws random
    points until one falls strictly inside the unit sphere (or disk); the
    random draws are a parameter, a finite sequence of candidates, and the
    loop reports `None` when the sequence runs out before a candidate is
    accepted. */
module Sampling {
  import opened Wrappers
  import opened Vectors

  /** A candidate the rejection loop keeps: `p.norm() < 1`. */
  predicate Inside(p: Vec3) {
    Norm(p) < 1.0
  }

  /** `random_sphere_distribution`: the first candidate inside the unit
      sphere. */
  method RandomSphereDistribution(draws: seq<Vec3>) returns (r: Option<Vec3>)
    ensures r.None? <==> forall i | 0 <= i < |draws| :: !Inside(draws[i])
    ensures r.Some? ==> Inside(r.value)
    ensures r.Some? ==> exists k | 0 <= k < |draws| :: draws[k] == r.value && forall i | 0 <= i < k :: !Inside(draws[i])
  {
    var k := 0;
    while k < |draws|
      invariant k <= |draws|
      invariant forall i | 0 <= i < k :: !Inside(draws[i])
    {
      if Inside(draws[k]) {
        return Some(draws[k]);
      }
      k := k + 1;
    }
    return None;
  }

  /** `random_in_unit_disk`: the first candidate `(x, y, 0)` inside the unit
      disk. */
  method RandomInUnitDisk(draws: seq<(real, real)>) returns (r: Option<Vec3>)
    ensures r.None? <==> forall i | 0 <= i < |draws| :: !Inside(Vec3(draws[i].0, draws[i].1, 0.0))
    ensures r.Some? ==> Inside(r.value) && r.value.z == 0.0
    ensures r.Some? ==> exists k | 0 <= k < |draws| ::
              r.value == Vec3(draws[k].0, draws[k].1, 0.0) &&
              forall i | 0 <= i < k :: !Inside(Vec3(draws[i].0, draws[i].1, 0.0))
  {
    var k := 0;
    while k < |draws|
      invariant k <= |draws|
      invariant forall i | 0 <= i < k :: !Inside(Vec3(draws[i].0, draws[i].1, 0.0))
    {
      var p := Vec3(draws[k].0, draws[k].1, 0.0);
      if Inside(p) {
        return Some(p);
      }
      k := k + 1;
    }
    return None;
  }

  /** `random_hemisphere_distribution` for the sphere sample `us`: `us` if it
      points to the normal's side, its opposite otherwise. The result never
      points away from the normal and keeps the sample's length. */
  function Hemisphere(normal: Vec3, us: Vec3): (v: Vec3)
    ensures Dot(v, normal) >= 0.0
    ensures v == us || v == Neg(us)
    ensures Dot(us, normal) > 0.0 <==> v == us && Dot(v, normal) > 0.0
    ensures Norm(v) == Norm(us)
  {
    DotNeg(us, normal);
    NormNeg(us);
    if Dot(us, normal) > 0.0 then us else Neg(us)
  }

  lemma NormNeg(v: Vec3)
    ensures Norm(Neg(v)) == Norm(v)
  {
  }

  /** The whole of `random_hemisphere_distribution`: a point of the unit
      ball on the normal's side. */
  method RandomHemisphereDistribution(normal: Vec3, draws: seq<Vec3>) returns (r: Option<Vec3>)
    ensures r.None? <==> forall i | 0 <= i < |draws| :: !Inside(draws[i])
    ensures r.Some? ==> Inside(r.value) && Dot(r.value, normal) >= 0.0
  {
    var us := RandomSphereDistribution(draws);
    if us.None? {
      return None;
    }
    return Some(Hemisphere(normal, us.value));
  }
}
