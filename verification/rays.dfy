/** Rays of the f64 renderer (ray.rs). `Ray::prime` is camera geometry and is
    a parameter of the scene model; the reflection constructor is modelled. */
module Rays {
  import opened Vectors

  datatype Ray = Ray(origin: Vec3, direction: Vec3)

  /** The point `origin + direction * t`. */
  function PointAt(r: Ray, t: real): Vec3 {
    Add(r.origin, Scale(r.direction, t))
  }

  /** `Ray::reflection`: start just off the surface, mirror the incident
      direction about the normal. */
  function Reflection(normal: Vec3, incident: Vec3, point: Vec3, shadowBias: real): (r: Ray)
    ensures Norm(normal) == 1.0 ==> Dot(r.direction, normal) == -Dot(incident, normal)
  {
    Ray(Add(point, Scale(normal, shadowBias)),
        Sub(incident, Scale(normal, 2.0 * Dot(incident, normal))))
  }
}
