/** The linear nearest-hit scan of `Scene::trace` (scene.rs): every object is
    intersected with the ray, the hits are kept, and `min_by` on the distance picks the nearest;
    `min_by` keeps the earlier of two equal elements. The scan is generic in
    the object type; `hit` is an object's intersection test for the ray in
    question. */
module NearestHit {
  import opened Wrappers
  import opened Intersections

  /** The index the scan picks among the first `n` objects. */
  function NearestIndex<T>(objs: seq<T>, hit: T -> Option<real>, n: nat): (r: Option<nat>)
    requires n <= |objs|
    ensures r.None? <==> forall i | 0 <= i < n :: hit(objs[i]).None?
    ensures r.Some? ==> r.value < n && hit(objs[r.value]).Some?
    ensures r.Some? ==> forall i | 0 <= i < n && hit(objs[i]).Some? ::
              hit(objs[r.value]).value <= hit(objs[i]).value
    ensures r.Some? ==> forall i | 0 <= i < r.value && hit(objs[i]).Some? ::
              hit(objs[r.value]).value < hit(objs[i]).value
  {
    if n == 0 then None
    else
      var best := NearestIndex(objs, hit, n - 1);
      match hit(objs[n - 1])
      case None => best
      case Some(d) =>
        if best.None? then Some(n - 1)
        else if d < hit(objs[best.value]).value then Some(n - 1)
        else best
  }

  /** `Scene::trace`: `None` exactly when no object is hit; otherwise a hit no
      farther than any other object's hit. */
  function Trace<T>(objs: seq<T>, hit: T -> Option<real>): (r: Option<Intersection<T>>)
    ensures r.None? <==> forall i | 0 <= i < |objs| :: hit(objs[i]).None?
    ensures r.Some? ==> r.value.obj in objs && hit(r.value.obj) == Some(r.value.distance)
    ensures r.Some? ==> forall t | t in objs && hit(t).Some? :: r.value.distance <= hit(t).value
  {
    match NearestIndex(objs, hit, |objs|)
    case None => None
    case Some(i) => Some(Intersection(hit(objs[i]).value, objs[i]))
  }

  /** Ties go to the earliest object: the object `Trace` returns is at an
      index before which no object is hit at the same or a smaller distance. */
  lemma TraceKeepsEarliest<T>(objs: seq<T>, hit: T -> Option<real>)
    requires Trace(objs, hit).Some?
    ensures NearestIndex(objs, hit, |objs|).Some?
    ensures objs[NearestIndex(objs, hit, |objs|).value] == Trace(objs, hit).value.obj
    ensures forall i | 0 <= i < NearestIndex(objs, hit, |objs|).value && hit(objs[i]).Some? ::
              Trace(objs, hit).value.distance < hit(objs[i]).value
  {
  }
}
