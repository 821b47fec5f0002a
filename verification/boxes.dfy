/** Axis-aligned bounding boxes (aabb.rs): the enclosing box of two boxes and
    the slab test, which narrows a `[tmin, tmax]` window axis by axis and
    rejects as soon as it is empty. A zero direction component makes the
    source divide by zero; the model requires every component to be non-zero. */
module Boxes {
  import opened Wrappers
  import opened Maths
  import opened Vectors
  import opened Rays

  datatype Aabb = Aabb(min: Vec3, max: Vec3)

  /** The invariant `min[a] <= max[a]` on every axis. */
  predicate Valid(b: Aabb) {
    b.min.x <= b.max.x && b.min.y <= b.max.y && b.min.z <= b.max.z
  }

  /** `outer` encloses `inner` componentwise. */
  predicate Contains(outer: Aabb, inner: Aabb) {
    && outer.min.x <= inner.min.x && outer.min.y <= inner.min.y && outer.min.z <= inner.min.z
    && inner.max.x <= outer.max.x && inner.max.y <= outer.max.y && inner.max.z <= outer.max.z
  }

  lemma ContainsTransitive(a: Aabb, b: Aabb, c: Aabb)
    requires Contains(a, b) && Contains(b, c)
    ensures Contains(a, c)
  {
  }

  /** `surrounding_box`: componentwise min of the minima, max of the maxima. */
  function SurroundingBox(b0: Aabb, b1: Aabb): (r: Aabb)
    ensures Contains(r, b0) && Contains(r, b1)
    ensures Valid(b0) ==> Valid(r)
  {
    Aabb(Vec3(Min(b0.min.x, b1.min.x), Min(b0.min.y, b1.min.y), Min(b0.min.z, b1.min.z)),
         Vec3(Max(b0.max.x, b1.max.x), Max(b0.max.y, b1.max.y), Max(b0.max.z, b1.max.z)))
  }

  /** The surrounding box is the smallest box enclosing both: any box that
      contains both contains it. */
  lemma SurroundingBoxIsLeast(b0: Aabb, b1: Aabb, c: Aabb)
    requires Contains(c, b0) && Contains(c, b1)
    ensures Contains(c, SurroundingBox(b0, b1))
  {
  }

  lemma SurroundingBoxLaws(b0: Aabb, b1: Aabb)
    ensures SurroundingBox(b0, b1) == SurroundingBox(b1, b0)
    ensures SurroundingBox(b0, b0) == b0
  {
  }

  /** `ffmax`. */
  function FfMax(a: real, b: real): (r: real)
    ensures a <= r && b <= r
    ensures r == a || r == b
  {
    if a > b then a else b
  }

  /** `ffmin`. */
  function FfMin(a: real, b: real): (r: real)
    ensures r <= a && r <= b
    ensures r == a || r == b
  {
    if a < b then a else b
  }

  /** The running ray-parameter window of the slab test. */
  datatype Window = Window(tmin: real, tmax: real)

  predicate Within(inner: Window, outer: Window) {
    outer.tmin <= inner.tmin && inner.tmax <= outer.tmax
  }

  /** One iteration of the loop in `Aabb::hit`: intersect the window with the
      slab of axis `a`. */
  function SlabStep(b: Aabb, r: Ray, a: Axis, w: Window): (w': Window)
    requires At(r.direction, a) != 0.0
    ensures Within(w', w)
  {
    var mint := (At(b.min, a) - At(r.origin, a)) / At(r.direction, a);
    var maxt := (At(b.max, a) - At(r.origin, a)) / At(r.direction, a);
    var t0 := FfMin(mint, maxt);
    var t1 := FfMax(mint, maxt);
    Window(FfMax(t0, w.tmin), FfMin(t1, w.tmax))
  }

  /** The window left after the axes `a .. 2`, or `None` once it has become
      empty (`tmax <= tmin`). */
  function Narrow(b: Aabb, r: Ray, a: nat, w: Window): (res: Option<Window>)
    requires a <= 3
    requires NonZeroComponents(r.direction)
    decreases 3 - a
    ensures res.Some? ==> Within(res.value, w)
    ensures res.Some? && a < 3 ==> res.value.tmin < res.value.tmax
  {
    if a == 3 then Some(w)
    else
      var w' := SlabStep(b, r, a, w);
      if w'.tmax <= w'.tmin then None else Narrow(b, r, a + 1, w')
  }

  /** `Aabb::hit`. */
  function Hit(b: Aabb, r: Ray, tmin: real, tmax: real): (h: bool)
    requires NonZeroComponents(r.direction)
    ensures h ==> tmin < tmax
  {
    Narrow(b, r, 0, Window(tmin, tmax)).Some?
  }

  /** An empty input window is rejected at the first axis. */
  lemma EmptyWindowMisses(b: Aabb, r: Ray, tmin: real, tmax: real)
    requires NonZeroComponents(r.direction)
    requires tmax <= tmin
    ensures !Hit(b, r, tmin, tmax)
  {
  }

  lemma DivSigns(n: real, d: real)
    requires d != 0.0
    ensures n < 0.0 && d > 0.0 ==> n / d < 0.0
    ensures n > 0.0 && d > 0.0 ==> n / d > 0.0
    ensures n < 0.0 && d < 0.0 ==> n / d > 0.0
    ensures n > 0.0 && d < 0.0 ==> n / d < 0.0
  {
    var q := n / d;
    assert q * d == n;
  }

  lemma DivMonotone(x: real, y: real, d: real)
    requires x <= y && d != 0.0
    ensures d > 0.0 ==> x / d <= y / d
    ensures d < 0.0 ==> y / d <= x / d
  {
    DivSigns(y - x, d);
    assert (y - x) / d == y / d - x / d;
  }

  /** Origin strictly inside the box on axis `a`. */
  predicate InsideOn(b: Aabb, p: Vec3, a: Axis) {
    At(b.min, a) < At(p, a) < At(b.max, a)
  }

  /** A slab whose interior holds the origin brackets 0: `t0 < 0 < t1`. */
  lemma SlabStepKeepsZero(b: Aabb, r: Ray, a: Axis, w: Window)
    requires At(r.direction, a) != 0.0
    requires InsideOn(b, r.origin, a)
    requires w.tmin < 0.0 < w.tmax
    ensures SlabStep(b, r, a, w).tmin < 0.0 < SlabStep(b, r, a, w).tmax
  {
    var d := At(r.direction, a);
    DivSigns(At(b.min, a) - At(r.origin, a), d);
    DivSigns(At(b.max, a) - At(r.origin, a), d);
  }

  lemma {:induction false} NarrowKeepsZero(b: Aabb, r: Ray, a: nat, w: Window)
    requires a <= 3
    requires NonZeroComponents(r.direction)
    requires forall k: Axis | a <= k :: InsideOn(b, r.origin, k)
    requires w.tmin < 0.0 < w.tmax
    ensures Narrow(b, r, a, w).Some?
    decreases 3 - a
  {
    if a < 3 {
      SlabStepKeepsZero(b, r, a, w);
      NarrowKeepsZero(b, r, a + 1, SlabStep(b, r, a, w));
    }
  }

  /** A ray starting strictly inside the box hits it whenever the window
      contains 0 in its interior. */
  lemma HitFromInside(b: Aabb, r: Ray, tmin: real, tmax: real)
    requires NonZeroComponents(r.direction)
    requires InsideOn(b, r.origin, 0) && InsideOn(b, r.origin, 1) && InsideOn(b, r.origin, 2)
    requires tmin < 0.0 < tmax
    ensures Hit(b, r, tmin, tmax)
  {
    NarrowKeepsZero(b, r, 0, Window(tmin, tmax));
  }

  /** The slab of an enclosing box covers the slab of a valid inner box. */
  lemma SlabStepMonotone(outer: Aabb, inner: Aabb, r: Ray, a: Axis, wo: Window, wi: Window)
    requires At(r.direction, a) != 0.0
    requires Valid(inner) && Contains(outer, inner)
    requires Within(wi, wo)
    ensures Within(SlabStep(inner, r, a, wi), SlabStep(outer, r, a, wo))
  {
    var d := At(r.direction, a);
    var o := At(r.origin, a);
    assert At(outer.min, a) <= At(inner.min, a) <= At(inner.max, a) <= At(outer.max, a);
    DivMonotone(At(outer.min, a) - o, At(inner.min, a) - o, d);
    DivMonotone(At(inner.min, a) - o, At(inner.max, a) - o, d);
    DivMonotone(At(inner.max, a) - o, At(outer.max, a) - o, d);
  }

  lemma {:induction false} NarrowMonotone(outer: Aabb, inner: Aabb, r: Ray, a: nat, wo: Window, wi: Window)
    requires a <= 3
    requires NonZeroComponents(r.direction)
    requires Valid(inner) && Contains(outer, inner)
    requires Within(wi, wo)
    requires Narrow(inner, r, a, wi).Some?
    ensures Narrow(outer, r, a, wo).Some?
    decreases 3 - a
  {
    if a < 3 {
      SlabStepMonotone(outer, inner, r, a, wo, wi);
      NarrowMonotone(outer, inner, r, a + 1, SlabStep(outer, r, a, wo), SlabStep(inner, r, a, wi));
    }
  }

  /** A ray that passes the slab test of a valid box passes it for every box
      enclosing that box. */
  lemma HitMonotone(outer: Aabb, inner: Aabb, r: Ray, tmin: real, tmax: real)
    requires NonZeroComponents(r.direction)
    requires Valid(inner) && Contains(outer, inner)
    requires Hit(inner, r, tmin, tmax)
    ensures Hit(outer, r, tmin, tmax)
  {
    NarrowMonotone(outer, inner, r, 0, Window(tmin, tmax), Window(tmin, tmax));
  }
}
