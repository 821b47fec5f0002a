/** The scene primitives of the f64 renderer (objects.rs): spheres and
    planes behind one `Object` enum that dispatches on the variant.

    `sqrt` is a parameter that returns the square root of every non-negative
    argument; `normalize` (the vector module's unit-length scaling) is a
    parameter of the sphere's surface normal. */
module Objects {
  import opened Wrappers
  import opened Maths
  import opened Vectors
  import opened Rays
  import opened Materials

  datatype Sphere = Sphere(center: Vec3, radius: real, material: Material)

  datatype Plane = Plane(origin: Vec3, normal: Vec3, material: Material)

  datatype Object = SphereObject(sphere: Sphere) | PlaneObject(plane: Plane)

  /** `Sphere::new` and `Plane::new` wrap the record in its variant. */
  function NewSphere(center: Vec3, radius: real, material: Material): (o: Object)
    ensures o.SphereObject? && o.sphere == Sphere(center, radius, material)
  {
    SphereObject(Sphere(center, radius, material))
  }

  function NewPlane(origin: Vec3, normal: Vec3, material: Material): (o: Object)
    ensures o.PlaneObject? && o.plane == Plane(origin, normal, material)
  {
    PlaneObject(Plane(origin, normal, material))
  }

  /** The coefficients of the sphere's quadratic in the ray parameter t:
      `a t^2 + 2 halfB t + c == 0` exactly at the surface. */
  datatype Quadratic = Quadratic(a: real, halfB: real, c: real)

  function Coefficients(s: Sphere, ray: Ray): Quadratic {
    var oc := Sub(ray.origin, s.center);
    Quadratic(Norm(ray.direction), Dot(oc, ray.direction), Norm(oc) - s.radius * s.radius)
  }

  function Discriminant(q: Quadratic): real {
    q.halfB * q.halfB - q.a * q.c
  }

  predicate InWindow(t: real, tmin: real, tmax: real) {
    !(t < tmin || tmax < t)
  }

  /** The point at t lies on the sphere's surface. */
  predicate OnSphere(s: Sphere, ray: Ray, t: real) {
    Norm(Sub(PointAt(ray, t), s.center)) == s.radius * s.radius
  }

  /** `Sphere::intersects`: the nearer root when it is in the window, else
      the farther root when that one is, else nothing. For a zero direction
      the source divides zero by zero; the model reports no hit there. */
  function SphereIntersects(s: Sphere, ray: Ray, tmin: real, tmax: real, sqrt: real -> real): (r: Option<real>)
    requires SqrtFunction(sqrt)
    ensures Discriminant(Coefficients(s, ray)) < 0.0 ==> r.None?
    ensures r.Some? ==> tmin <= r.value <= tmax
  {
    RootInWindow(Coefficients(s, ray), tmin, tmax, sqrt)
  }

  /** The root selection of `Sphere::intersects` on the coefficients. */
  function RootInWindow(q: Quadratic, tmin: real, tmax: real, sqrt: real -> real): (r: Option<real>)
    ensures Discriminant(q) < 0.0 ==> r.None?
    ensures r.Some? ==> tmin <= r.value <= tmax
  {
    if Discriminant(q) < 0.0 || q.a == 0.0 then None
    else PickRoot((-q.halfB - sqrt(Discriminant(q))) / q.a, (-q.halfB + sqrt(Discriminant(q))) / q.a, tmin, tmax)
  }

  /** The nearer root if it is in the window, else the farther one if it is. */
  function PickRoot(near: real, far: real, tmin: real, tmax: real): (r: Option<real>)
    ensures r.Some? ==> InWindow(r.value, tmin, tmax) && (r.value == near || r.value == far)
    ensures InWindow(near, tmin, tmax) ==> r == Some(near)
    ensures !InWindow(near, tmin, tmax) && InWindow(far, tmin, tmax) ==> r == Some(far)
  {
    if InWindow(near, tmin, tmax) then Some(near)
    else if InWindow(far, tmin, tmax) then Some(far)
    else None
  }

  /** `|oc + d t|^2 = |oc|^2 + 2 t (oc . d) + t^2 |d|^2`. */
  lemma ExpandSquare(oc: Vec3, d: Vec3, t: real)
    ensures Norm(Add(oc, Scale(d, t))) == Norm(oc) + 2.0 * t * Dot(oc, d) + t * t * Norm(d)
  {
    assert (oc.x + d.x * t) * (oc.x + d.x * t) == oc.x * oc.x + 2.0 * t * (oc.x * d.x) + t * t * (d.x * d.x);
    assert (oc.y + d.y * t) * (oc.y + d.y * t) == oc.y * oc.y + 2.0 * t * (oc.y * d.y) + t * t * (d.y * d.y);
    assert (oc.z + d.z * t) * (oc.z + d.z * t) == oc.z * oc.z + 2.0 * t * (oc.z * d.z) + t * t * (d.z * d.z);
  }

  /** On the ray, the sphere's surface is where the quadratic vanishes. */
  lemma OnSphereIsRoot(s: Sphere, ray: Ray, t: real)
    ensures var q := Coefficients(s, ray);
            OnSphere(s, ray, t) <==> q.a * t * t + 2.0 * q.halfB * t + q.c == 0.0
  {
    var q := Coefficients(s, ray);
    NormAlongRay(ray, s.center, t);
    QuadraticForm(Norm(Sub(PointAt(ray, t), s.center)), q.a, q.halfB, q.c + s.radius * s.radius, s.radius * s.radius, t);
  }

  /** The squared distance from the centre along the ray, as a polynomial in t. */
  lemma NormAlongRay(ray: Ray, center: Vec3, t: real)
    ensures var oc := Sub(ray.origin, center);
            Norm(Sub(PointAt(ray, t), center)) == Norm(oc) + 2.0 * t * Dot(oc, ray.direction) + t * t * Norm(ray.direction)
  {
    var oc := Sub(ray.origin, center);
    assert Sub(PointAt(ray, t), center) == Add(oc, Scale(ray.direction, t));
    ExpandSquare(oc, ray.direction, t);
  }

  /** `n == r2` restated as a quadratic in t that vanishes. */
  lemma QuadraticForm(n: real, a: real, b: real, c: real, r2: real, t: real)
    requires n == c + 2.0 * t * b + t * t * a
    ensures n == r2 <==> a * t * t + 2.0 * b * t + (c - r2) == 0.0
  {
    assert a * t * t == t * t * a;
    assert 2.0 * b * t == 2.0 * t * b;
  }

  lemma DivIff(t: real, x: real, a: real)
    requires a != 0.0
    ensures t == x / a <==> t * a == x
  {
  }

  lemma ProductZero(x: real, y: real)
    ensures x * y == 0.0 <==> x == 0.0 || y == 0.0
  {
  }

  /** Completing the square: `a (a t^2 + 2 b t + c) == (a t + b)^2 - (b^2 - a c)`. */
  lemma CompleteSquare(a: real, b: real, c: real, t: real)
    ensures a * (a * t * t + 2.0 * b * t + c) == (a * t + b) * (a * t + b) - (b * b - a * c)
  {
  }

  /** For `a > 0` the roots of `a t^2 + 2 b t + c` are exactly
      `(-b -+ sqrt(b^2 - a c)) / a`. */
  lemma ScalarRoots(a: real, b: real, c: real, sd: real, t: real)
    requires a > 0.0 && sd >= 0.0 && sd * sd == b * b - a * c
    ensures a * t * t + 2.0 * b * t + c == 0.0 <==> t == (-b - sd) / a || t == (-b + sd) / a
  {
    var p := a * t * t + 2.0 * b * t + c;
    var u := a * t + b;
    CompleteSquare(a, b, c, t);
    ProductZero(a, p);
    assert a * p == u * u - sd * sd;
    assert u * u - sd * sd == (u - sd) * (u + sd);
    ProductZero(u - sd, u + sd);
    DivIff(t, -b - sd, a);
    DivIff(t, -b + sd, a);
  }

  lemma QuadraticRoots(q: Quadratic, sqrtd: real, t: real)
    requires q.a > 0.0 && IsSqrt(Discriminant(q), sqrtd)
    ensures q.a * t * t + 2.0 * q.halfB * t + q.c == 0.0 <==>
            t == (-q.halfB - sqrtd) / q.a || t == (-q.halfB + sqrtd) / q.a
  {
    ScalarRoots(q.a, q.halfB, q.c, sqrtd, t);
  }

  /** A quadratic with a real root has a non-negative discriminant. */
  lemma RootHasNonNegativeDiscriminant(a: real, b: real, c: real, t: real)
    requires a * t * t + 2.0 * b * t + c == 0.0
    ensures b * b - a * c >= 0.0
  {
    CompleteSquare(a, b, c, t);
    SquareNonNegative(a * t + b);
  }

  lemma RootsOnSphere(s: Sphere, ray: Ray, sqrtd: real)
    requires Coefficients(s, ray).a != 0.0 && IsSqrt(Discriminant(Coefficients(s, ray)), sqrtd)
    ensures var q := Coefficients(s, ray);
            OnSphere(s, ray, (-q.halfB - sqrtd) / q.a) && OnSphere(s, ray, (-q.halfB + sqrtd) / q.a)
  {
    var q := Coefficients(s, ray);
    NormNonNegative(ray.direction);
    var near := (-q.halfB - sqrtd) / q.a;
    var far := (-q.halfB + sqrtd) / q.a;
    QuadraticRoots(q, sqrtd, near);
    QuadraticRoots(q, sqrtd, far);
    OnSphereIsRoot(s, ray, near);
    OnSphereIsRoot(s, ray, far);
  }

  /** A hit the sphere reports lies on its surface. */
  lemma SphereHitOnSurface(s: Sphere, ray: Ray, tmin: real, tmax: real, sqrt: real -> real)
    requires SqrtFunction(sqrt)
    requires SphereIntersects(s, ray, tmin, tmax, sqrt).Some?
    ensures OnSphere(s, ray, SphereIntersects(s, ray, tmin, tmax, sqrt).value)
  {
    var q := Coefficients(s, ray);
    assert IsSqrt(Discriminant(q), sqrt(Discriminant(q)));
    RootsOnSphere(s, ray, sqrt(Discriminant(q)));
  }

  /** The sphere reports the nearest surface point in the window: a reported
      hit is no farther than any surface point in the window, and for a
      non-zero direction no hit means no surface point in the window. */
  lemma SphereNearestRoot(s: Sphere, ray: Ray, tmin: real, tmax: real, sqrt: real -> real, t: real)
    requires SqrtFunction(sqrt)
    requires Norm(ray.direction) > 0.0
    requires OnSphere(s, ray, t) && tmin <= t <= tmax
    ensures SphereIntersects(s, ray, tmin, tmax, sqrt).Some?
    ensures SphereIntersects(s, ray, tmin, tmax, sqrt).value <= t
  {
    OnSphereIsRoot(s, ray, t);
    NearestOfQuadratic(Coefficients(s, ray), tmin, tmax, sqrt, t);
  }

  lemma NearestOfQuadratic(q: Quadratic, tmin: real, tmax: real, sqrt: real -> real, t: real)
    requires SqrtFunction(sqrt)
    requires q.a > 0.0 && q.a * t * t + 2.0 * q.halfB * t + q.c == 0.0
    requires tmin <= t <= tmax
    ensures RootInWindow(q, tmin, tmax, sqrt).Some?
    ensures RootInWindow(q, tmin, tmax, sqrt).value <= t
  {
    RootHasNonNegativeDiscriminant(q.a, q.halfB, q.c, t);
    assert IsSqrt(Discriminant(q), sqrt(Discriminant(q)));
    NearerRootFirst(q.a, q.halfB, q.c, sqrt(Discriminant(q)), t, tmin, tmax);
  }

  lemma SquareNonNegative(x: real)
    ensures x * x >= 0.0
  {
  }

  lemma SquarePositive(x: real)
    requires x != 0.0
    ensures x * x > 0.0
  {
  }

  /** The root selection on plain numbers: with a root `t` in the window, the
      nearer root is chosen when it is in the window and is then no farther
      than `t`; otherwise the farther root is in the window and is `t`. */
  lemma NearerRootFirst(a: real, b: real, c: real, sd: real, t: real, tmin: real, tmax: real)
    requires a > 0.0 && sd >= 0.0 && sd * sd == b * b - a * c
    requires a * t * t + 2.0 * b * t + c == 0.0 && tmin <= t <= tmax
    ensures InWindow((-b - sd) / a, tmin, tmax) ==> (-b - sd) / a <= t
    ensures !InWindow((-b - sd) / a, tmin, tmax) ==> InWindow((-b + sd) / a, tmin, tmax) && (-b + sd) / a == t
  {
    ScalarRoots(a, b, c, sd, t);
    var near := (-b - sd) / a;
    var far := (-b + sd) / a;
    DivIff(near, -b - sd, a);
    DivIff(far, -b + sd, a);
    assert near * a <= far * a;
    assert near <= far;
  }

  /** `Plane::intersects`: a ray not nearly parallel to the plane hits it at
      the parameter where it crosses, when that is beyond 1e-6. The window is
      not consulted. */
  function PlaneIntersects(p: Plane, ray: Ray, tmin: real, tmax: real): (r: Option<real>)
    ensures Abs(Dot(p.normal, ray.direction)) <= 0.000001 ==> r.None?
    ensures r.Some? ==> r.value > 0.000001
    ensures r.Some? ==> Dot(Sub(PointAt(ray, r.value), p.origin), p.normal) == 0.0
  {
    var denominator := Dot(p.normal, ray.direction);
    if Abs(denominator) > 0.000001 then
      var difference := Sub(p.origin, ray.origin);
      var t := Dot(difference, p.normal) / denominator;
      PlaneCrossing(p, ray, t);
      if t > 0.000001 then Some(t) else None
    else None
  }

  lemma PlaneCrossing(p: Plane, ray: Ray, t: real)
    requires Dot(p.normal, ray.direction) != 0.0
    requires t == Dot(Sub(p.origin, ray.origin), p.normal) / Dot(p.normal, ray.direction)
    ensures Dot(Sub(PointAt(ray, t), p.origin), p.normal) == 0.0
  {
    var n := p.normal;
    var d := ray.direction;
    var diff := Sub(p.origin, ray.origin);
    assert t * Dot(n, d) == Dot(diff, n);
    assert Dot(Sub(PointAt(ray, t), p.origin), n) == t * Dot(n, d) - Dot(diff, n);
  }

  /** The plane's answer does not depend on the window it is given. */
  lemma PlaneIgnoresWindow(p: Plane, ray: Ray, tmin: real, tmax: real, tmin': real, tmax': real)
    ensures PlaneIntersects(p, ray, tmin, tmax) == PlaneIntersects(p, ray, tmin', tmax')
  {
  }

  /** `Plane::surface_normal`: the stored normal reversed, at every point. */
  function PlaneSurfaceNormal(p: Plane, point: Vec3): (n: Vec3)
    ensures Dot(n, p.normal) == -Norm(p.normal)
    ensures Add(n, p.normal) == Zero
  {
    DotNeg(p.normal, p.normal);
    Neg(p.normal)
  }

  /** `Plane::outward_normal`: the zero vector. */
  function PlaneOutwardNormal(p: Plane, point: Vec3): (n: Vec3)
    ensures Norm(n) == 0.0
  {
    Zero
  }

  /** `Sphere::outward_normal`: the offset from the centre divided by the
      radius. */
  function SphereOutwardNormal(s: Sphere, point: Vec3): Vec3
    requires s.radius != 0.0
  {
    var v := Sub(point, s.center);
    Vec3(v.x / s.radius, v.y / s.radius, v.z / s.radius)
  }

  /** Scaling the outward normal back by the radius gives the offset from
      the centre. */
  lemma OutwardNormalScalesBack(s: Sphere, point: Vec3)
    requires s.radius != 0.0
    ensures Scale(SphereOutwardNormal(s, point), s.radius) == Sub(point, s.center)
  {
    var v := Sub(point, s.center);
    DivIff(v.x / s.radius, v.x, s.radius);
    DivIff(v.y / s.radius, v.y, s.radius);
    DivIff(v.z / s.radius, v.z, s.radius);
  }

  /** `Object::material`. */
  function MaterialOf(o: Object): (m: Material)
    ensures m == (if o.SphereObject? then o.sphere.material else o.plane.material)
  {
    match o
    case SphereObject(s) => s.material
    case PlaneObject(p) => p.material
  }

  /** `Object::intersects`: the wrapped primitive's own test. */
  function Intersects(o: Object, ray: Ray, tmin: real, tmax: real, sqrt: real -> real): (r: Option<real>)
    requires SqrtFunction(sqrt)
    ensures o.SphereObject? ==> r == SphereIntersects(o.sphere, ray, tmin, tmax, sqrt)
    ensures o.PlaneObject? ==> r == PlaneIntersects(o.plane, ray, tmin, tmax)
  {
    match o
    case SphereObject(s) => SphereIntersects(s, ray, tmin, tmax, sqrt)
    case PlaneObject(p) => PlaneIntersects(p, ray, tmin, tmax)
  }

  /** `Object::surface_normal`: for a sphere, the normalised offset from the
      centre; for a plane, the reversed stored normal. */
  function SurfaceNormal(o: Object, point: Vec3, normalize: Vec3 -> Vec3): (n: Vec3)
    ensures o.SphereObject? ==> n == normalize(Sub(point, o.sphere.center))
    ensures o.PlaneObject? ==> n == PlaneSurfaceNormal(o.plane, point)
  {
    match o
    case SphereObject(s) => normalize(Sub(point, s.center))
    case PlaneObject(p) => PlaneSurfaceNormal(p, point)
  }

  /** `Object::outward_normal`. */
  function OutwardNormal(o: Object, point: Vec3): (n: Vec3)
    requires o.SphereObject? ==> o.sphere.radius != 0.0
    ensures o.SphereObject? ==> n == SphereOutwardNormal(o.sphere, point)
    ensures o.PlaneObject? ==> n == PlaneOutwardNormal(o.plane, point)
  {
    if o.SphereObject? then SphereOutwardNormal(o.sphere, point) else PlaneOutwardNormal(o.plane, point)
  }
}
