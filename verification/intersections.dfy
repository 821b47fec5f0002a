/** The hit record (intersection.rs): the ray parameter at the hit and the
    object that was hit. It carries no properties of its own. */
module Intersections {
  import opened Wrappers

  datatype Intersection<T> = Intersection(distance: real, obj: T)

  /** The distance of an optional hit. */
  function Distance<T>(h: Option<Intersection<T>>): Option<real> {
    match h
    case None => None
    case Some(i) => Some(i.distance)
  }
}
