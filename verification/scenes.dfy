/** The f64 scene of scene.rs: a camera setup, a list of objects and a list
    of lights. `cast` follows a ray: past the depth limit, or when nothing is
    hit, it is black; otherwise `compute_color` shades the hit with direct
    lighting (a shadow ray per light), optional Monte Carlo indirect lighting
    (one recursive cast per sample) and, for reflective materials, a
    recursive cast of the mirror ray. Every recursive cast passes
    `depth + 1`, so `max_depth - depth` bounds the recursion.

    Numerical collaborators are the fields of a `Physics` record: the square
    root, normalisation, `powf`, the spherical-light falloff, the camera's
    `Ray::prime`, the hemisphere sample of the k-th indirect ray, and the hit
    window handed to the objects. */
module Scenes {
  import opened Wrappers
  import opened Maths
  import opened Vectors
  import opened Rays
  import Colors
  import opened Materials
  import opened Objects
  import opened Lights
  import opened Intersections
  import NearestHit
  import Boxes
  import Bvh
  import BvhQuery
  import Tiling

  datatype Scene = Scene(width: nat, height: nat, fov: real, camPos: Vec3, maxDepth: nat,
                         samples: nat, shadowBias: real, objects: seq<Object>, lights: seq<Light>)

  datatype Physics = Physics(
    sqrt: real -> real,
    normalize: Vec3 -> Vec3,
    pow: (real, real) -> real,
    falloff: (real, real) -> real,
    prime: (nat, nat) -> Ray,
    /** `(r1, direction)` of the k-th indirect sample at a point with a
        surface normal, at a recursion depth. */
    sample: (Vec3, Vec3, nat, nat) -> (real, Vec3),
    tmin: real,
    tmax: real)

  /** `std::f32::consts::PI as f64`. */
  const PI: real := 3.1415927410125732421875
  /** `PDF = 1 / (2 PI)`, the density of a uniform hemisphere sample. */
  const PDF: real := 1.0 / (2.0 * PI)

  /** `Scene::new`: no objects and no lights yet. */
  function New(width: nat, height: nat, fov: real, camPos: Vec3, maxDepth: nat,
               samples: nat, shadowBias: real): (s: Scene)
    ensures s.objects == [] && s.lights == []
    ensures s.width == width && s.height == height && s.fov == fov && s.camPos == camPos
    ensures s.maxDepth == maxDepth && s.samples == samples && s.shadowBias == shadowBias
  {
    Scene(width, height, fov, camPos, maxDepth, samples, shadowBias, [], [])
  }

  /** `add_obj`: one more object at the end, nothing else changes. */
  function AddObj(s: Scene, o: Object): (s': Scene)
    ensures s'.objects == s.objects + [o]
    ensures s' == s.(objects := s'.objects)
  {
    s.(objects := s.objects + [o])
  }

  /** `add_light`: one more light at the end, nothing else changes. */
  function AddLight(s: Scene, l: Light): (s': Scene)
    ensures s'.lights == s.lights + [l]
    ensures s' == s.(lights := s'.lights)
  {
    s.(lights := s.lights + [l])
  }

  /** The objects' hit test for one ray, over the physics' hit window. */
  function HitTest(phys: Physics, ray: Ray): Object -> Option<real>
    requires SqrtFunction(phys.sqrt)
  {
    o => Objects.Intersects(o, ray, phys.tmin, phys.tmax, phys.sqrt)
  }

  /** `Scene::trace`: the nearest hit over all objects, ties to the earliest. */
  function Trace(s: Scene, phys: Physics, ray: Ray): (r: Option<Intersection<Object>>)
    requires SqrtFunction(phys.sqrt)
    ensures r.None? <==> forall o | o in s.objects :: HitTest(phys, ray)(o).None?
    ensures r.Some? ==> r.value.obj in s.objects && HitTest(phys, ray)(r.value.obj) == Some(r.value.distance)
    ensures r.Some? ==> forall o | o in s.objects && HitTest(phys, ray)(o).Some? ::
              r.value.distance <= HitTest(phys, ray)(o).value
  {
    NearestHit.Trace(s.objects, HitTest(phys, ray))
  }

  /** The shadow ray towards a light, started just off the surface. */
  function ShadowRay(s: Scene, phys: Physics, l: Light, point: Vec3, normal: Vec3): (r: Ray)
    ensures r.direction == RelDirection(l, point, phys.normalize)
    ensures r.origin == Add(point, Scale(normal, s.shadowBias))
  {
    Ray(Add(point, Scale(normal, s.shadowBias)), RelDirection(l, point, phys.normalize))
  }

  /** An object the shadow ray hits no farther than the light. */
  predicate Blocks(s: Scene, phys: Physics, l: Light, point: Vec3, normal: Vec3, o: Object)
    requires SqrtFunction(phys.sqrt)
  {
    var h := HitTest(phys, ShadowRay(s, phys, l, point, normal))(o);
    h.Some? && !Beyond(h.value, RelDistance(l, point, phys.sqrt))
  }

  /** The shadow branch of `direct_lighting`: the light's intensity if the
      shadow ray hits nothing, or only things beyond the light; zero if
      something is in the way. A directional light is infinitely far, so any
      hit shadows it. */
  function ShadowedIntensity(s: Scene, phys: Physics, l: Light, point: Vec3, normal: Vec3): real
    requires SqrtFunction(phys.sqrt)
  {
    var isLit := Trace(s, phys, ShadowRay(s, phys, l, point, normal));
    if isLit.None? || Beyond(isLit.value.distance, RelDistance(l, point, phys.sqrt)) then
      Intensity(l, point, phys.falloff)
    else
      0.0
  }

  /** Something between the point and the light puts the point in shadow. */
  lemma BlockedLightIsDark(s: Scene, phys: Physics, l: Light, point: Vec3, normal: Vec3, o: Object)
    requires SqrtFunction(phys.sqrt)
    requires o in s.objects && Blocks(s, phys, l, point, normal, o)
    ensures ShadowedIntensity(s, phys, l, point, normal) == 0.0
  {
    var isLit := Trace(s, phys, ShadowRay(s, phys, l, point, normal));
    assert isLit.Some?;
  }

  /** With nothing between the point and the light, the light shines at its
      full intensity. */
  lemma UnblockedLightShines(s: Scene, phys: Physics, l: Light, point: Vec3, normal: Vec3)
    requires SqrtFunction(phys.sqrt)
    requires forall o | o in s.objects :: !Blocks(s, phys, l, point, normal, o)
    ensures ShadowedIntensity(s, phys, l, point, normal) == Intensity(l, point, phys.falloff)
  {
    var isLit := Trace(s, phys, ShadowRay(s, phys, l, point, normal));
    if isLit.Some? {
      assert !Blocks(s, phys, l, point, normal, isLit.value.obj);
    }
  }

  /** `surf_norm.dot(light_dir).max(0.0) * intensity`. */
  function Power(normal: Vec3, lightDir: Vec3, intensity: real): (p: real)
    ensures Dot(normal, lightDir) <= 0.0 || intensity == 0.0 ==> p == 0.0
  {
    Max(Dot(normal, lightDir), 0.0) * intensity
  }

  /** `light.color() * power * reflected`. */
  function Diffuse(color: Colors.Color, power: real, albedo: real): (c: Colors.Color)
    ensures power == 0.0 ==> c == Colors.BLACK
  {
    Colors.ScaleZero(color, albedo);
    Colors.Scale(Colors.Scale(color, power), albedo)
  }

  /** `WHITE * intensity * highlight * phong_ks`. */
  function Specular(intensity: real, highlight: real, ks: real): (c: Colors.Color)
    ensures intensity == 0.0 ==> c == Colors.BLACK
  {
    Colors.ScaleZero(Colors.WHITE, highlight);
    Colors.ScaleZero(Colors.BLACK, ks);
    Colors.Scale(Colors.Scale(Colors.Scale(Colors.WHITE, intensity), highlight), ks)
  }

  /** The Phong term `(r . -light_dir).max(0.0).powf(phong_n)`, with r the
      light direction mirrored about the normal. */
  function Highlight(phys: Physics, m: Material, normal: Vec3, lightDir: Vec3): real {
    var r := Sub(lightDir, Scale(normal, 2.0 * Dot(lightDir, normal)));
    phys.pow(Max(Dot(r, Neg(lightDir)), 0.0), m.phongN)
  }

  /** One light's diffuse and specular share in `direct_lighting`: nothing
      from a shadowed light, no diffuse share from a light behind the
      surface. */
  function LightShare(s: Scene, phys: Physics, m: Material, point: Vec3, normal: Vec3, l: Light): (share: (Colors.Color, Colors.Color))
    requires SqrtFunction(phys.sqrt)
    ensures ShadowedIntensity(s, phys, l, point, normal) == 0.0 ==> share == (Colors.BLACK, Colors.BLACK)
    ensures Dot(normal, RelDirection(l, point, phys.normalize)) <= 0.0 ==> share.0 == Colors.BLACK
  {
    var lightDir := RelDirection(l, point, phys.normalize);
    var intensity := ShadowedIntensity(s, phys, l, point, normal);
    (Diffuse(l.color, Power(normal, lightDir, intensity), m.albedo),
     Specular(intensity, Highlight(phys, m, normal, lightDir), m.phongKs))
  }

  /** The diffuse and specular sums of a list of shares, added up in order. */
  function SumShares(shares: seq<(Colors.Color, Colors.Color)>): (Colors.Color, Colors.Color) {
    if |shares| == 0 then (Colors.BLACK, Colors.BLACK)
    else
      var acc := SumShares(shares[..|shares| - 1]);
      var share := shares[|shares| - 1];
      (Colors.Add(acc.0, share.0), Colors.Add(acc.1, share.1))
  }

  /** Black shares add up to black. */
  lemma {:induction false} BlackSharesSumToBlack(shares: seq<(Colors.Color, Colors.Color)>)
    requires forall i | 0 <= i < |shares| :: shares[i] == (Colors.BLACK, Colors.BLACK)
    ensures SumShares(shares) == (Colors.BLACK, Colors.BLACK)
  {
    if |shares| > 0 {
      BlackSharesSumToBlack(shares[..|shares| - 1]);
    }
  }

  /** The shares of every light of the scene, in order. */
  function LightShares(s: Scene, phys: Physics, m: Material, point: Vec3, normal: Vec3): (shares: seq<(Colors.Color, Colors.Color)>)
    requires SqrtFunction(phys.sqrt)
    ensures |shares| == |s.lights|
    ensures forall i | 0 <= i < |s.lights| :: shares[i] == LightShare(s, phys, m, point, normal, s.lights[i])
  {
    seq(|s.lights|, i requires 0 <= i < |s.lights| => LightShare(s, phys, m, point, normal, s.lights[i]))
  }

  /** Every light is in shadow. */
  predicate AllShadowed(s: Scene, phys: Physics, point: Vec3, normal: Vec3)
    requires SqrtFunction(phys.sqrt)
  {
    forall i | 0 <= i < |s.lights| :: ShadowedIntensity(s, phys, s.lights[i], point, normal) == 0.0
  }

  /** `direct_lighting`: the material colour times the diffuse plus the
      specular sums over all lights. With every light shadowed it is black. */
  function DirectLighting(s: Scene, phys: Physics, m: Material, point: Vec3, normal: Vec3): (c: Colors.Color)
    requires SqrtFunction(phys.sqrt)
    ensures AllShadowed(s, phys, point, normal) ==> c == Colors.BLACK
  {
    var shares := LightShares(s, phys, m, point, normal);
    if AllShadowed(s, phys, point, normal) then
      BlackSharesSumToBlack(shares);
      Colors.ScaleZero(m.color, 0.0);
      Colors.Mul(m.color, Total(SumShares(shares)))
    else
      Colors.Mul(m.color, Total(SumShares(shares)))
  }

  /** The diffuse plus the specular sum. */
  function Total(sums: (Colors.Color, Colors.Color)): Colors.Color {
    Colors.Add(sums.0, sums.1)
  }

  /** The k-th indirect sample ray: along the sampled direction, started just
      off the surface. */
  function SampleRay(s: Scene, phys: Physics, point: Vec3, normal: Vec3, depth: nat, k: nat): Ray {
    var direction := phys.sample(point, normal, depth, k).1;
    Ray(Add(point, Scale(direction, s.shadowBias)), direction)
  }

  /** `cast`: black at or past the depth limit and when no object is hit. */
  function Cast(s: Scene, phys: Physics, ray: Ray, depth: nat): (c: Colors.Color)
    requires SqrtFunction(phys.sqrt)
    ensures depth >= s.maxDepth ==> c == Colors.BLACK
    ensures (forall o | o in s.objects :: HitTest(phys, ray)(o).None?) ==> c == Colors.BLACK
    decreases s.maxDepth - depth, 3, 0
  {
    if depth >= s.maxDepth then Colors.BLACK
    else
      match Trace(s, phys, ray)
      case Some(hit) => ComputeColor(s, phys, ray, hit, depth)
      case None => Colors.BLACK
  }

  /** `compute_color`: the lit colour of the hit, blended with the cast of
      the mirror ray when the material is reflective. A material that is not
      reflective adds no reflection term; a perfect mirror shows only the
      reflected cast. */
  function ComputeColor(s: Scene, phys: Physics, ray: Ray, hit: Intersection<Object>, depth: nat): (c: Colors.Color)
    requires SqrtFunction(phys.sqrt)
    requires depth < s.maxDepth
    ensures !(MaterialOf(hit.obj).reflectivity > 0.0) ==> c == LitColor(s, phys, ray, hit, depth)
    ensures MaterialOf(hit.obj).reflectivity == 1.0 ==> c == Cast(s, phys, MirrorRay(s, phys, ray, hit), depth + 1)
    decreases s.maxDepth - depth, 2, 0
  {
    var m := MaterialOf(hit.obj);
    var base := LitColor(s, phys, ray, hit, depth);
    if m.reflectivity > 0.0 then
      Colors.Add(Colors.Scale(base, 1.0 - m.reflectivity),
                 Colors.Scale(Cast(s, phys, MirrorRay(s, phys, ray, hit), depth + 1), m.reflectivity))
    else
      base
  }

  /** The point that was hit. */
  function HitPoint(ray: Ray, hit: Intersection<Object>): Vec3 {
    PointAt(ray, hit.distance)
  }

  /** The surface normal at the hit point. */
  function HitNormal(phys: Physics, ray: Ray, hit: Intersection<Object>): Vec3 {
    SurfaceNormal(hit.obj, HitPoint(ray, hit), phys.normalize)
  }

  /** `Ray::reflection` at the hit. */
  function MirrorRay(s: Scene, phys: Physics, ray: Ray, hit: Intersection<Object>): Ray {
    Reflection(HitNormal(phys, ray, hit), ray.direction, HitPoint(ray, hit), s.shadowBias)
  }

  /** The colour of the hit before the reflection branch: direct lighting,
      with indirect lighting on top when the scene takes samples. */
  function LitColor(s: Scene, phys: Physics, ray: Ray, hit: Intersection<Object>, depth: nat): (c: Colors.Color)
    requires SqrtFunction(phys.sqrt)
    requires depth < s.maxDepth
    ensures s.samples == 0 ==>
              c == DirectLighting(s, phys, MaterialOf(hit.obj), HitPoint(ray, hit), HitNormal(phys, ray, hit))
    decreases s.maxDepth - depth, 1, 0
  {
    var m := MaterialOf(hit.obj);
    var point := HitPoint(ray, hit);
    var normal := HitNormal(phys, ray, hit);
    var direct := DirectLighting(s, phys, m, point, normal);
    if s.samples > 0 then
      var indirect := Colors.DivScalar(IndirectSum(s, phys, point, normal, depth, s.samples), s.samples as real);
      Colors.Scale(Colors.Mul(m.color, Colors.Add(Colors.DivScalar(direct, PI), Colors.ScaleLeft(2.0, indirect))), m.albedo)
    else
      direct
  }

  /** The sum over the first k indirect samples of `r1 * cast(ray, depth + 1) / PDF`. */
  function IndirectSum(s: Scene, phys: Physics, point: Vec3, normal: Vec3, depth: nat, k: nat): (c: Colors.Color)
    requires SqrtFunction(phys.sqrt)
    requires depth < s.maxDepth
    ensures depth + 1 == s.maxDepth ==> c == Colors.BLACK
    decreases s.maxDepth - depth, 0, k
  {
    if k == 0 then Colors.BLACK
    else
      var r1 := phys.sample(point, normal, depth, k - 1).0;
      var sample := Cast(s, phys, SampleRay(s, phys, point, normal, depth, k - 1), depth + 1);
      PdfPositive();
      BlackSampleTerm(r1);
      Colors.Add(IndirectSum(s, phys, point, normal, depth, k - 1), Colors.DivScalar(Colors.ScaleLeft(r1, sample), PDF))
  }

  /** The hemisphere density is positive, so dividing by it is defined. */
  lemma PdfPositive()
    ensures PDF > 0.0
  {
    assert 2.0 * PI > 6.0;
  }

  /** A black sample adds nothing to the indirect sum. */
  lemma BlackSampleTerm(r1: real)
    requires PDF > 0.0
    ensures Colors.DivScalar(Colors.ScaleLeft(r1, Colors.BLACK), PDF) == Colors.BLACK
    ensures Colors.Add(Colors.BLACK, Colors.BLACK) == Colors.BLACK
  {
  }

  /** A `matte` material never takes the reflection branch. */
  lemma MatteNeverReflects(s: Scene, phys: Physics, ray: Ray, hit: Intersection<Object>, depth: nat, color: Colors.Color, albedo: real)
    requires SqrtFunction(phys.sqrt)
    requires depth < s.maxDepth
    requires MaterialOf(hit.obj) == Matte(color, albedo)
    ensures ComputeColor(s, phys, ray, hit, depth) == LitColor(s, phys, ray, hit, depth)
  {
  }

  /** The colour of pixel (x, y): the cast of its primary ray, as bytes. */
  function PixelColor(s: Scene, phys: Physics): (nat, nat) -> Colors.Rgb
    requires SqrtFunction(phys.sqrt)
  {
    (x: nat, y: nat) => Colors.ToSlice(Cast(s, phys, phys.prime(x, y), 0))
  }

  /** `render_slab(j, h)`: `3 * width * h` bytes, pixel (x, y) at offset
      `3 * ((y - j) * width + x)`. A scene with no objects, or a depth limit
      of zero, renders all-zero bytes. */
  method RenderSlab(s: Scene, phys: Physics, j: nat, h: nat) returns (pixels: seq<Colors.Byte>)
    requires SqrtFunction(phys.sqrt)
    ensures |pixels| == 3 * s.width * h
    ensures forall x: nat, y: nat | x < s.width && j <= y < j + h ::
              Tiling.PixelOffset(s.width, j, x, y) + 3 <= |pixels| &&
              pixels[Tiling.PixelOffset(s.width, j, x, y) .. Tiling.PixelOffset(s.width, j, x, y) + 3]
                == Colors.ToSlice(Cast(s, phys, phys.prime(x, y), 0))
    ensures s.objects == [] || s.maxDepth == 0 ==> forall i | 0 <= i < |pixels| :: pixels[i] == 0
  {
    var pixel := PixelColor(s, phys);
    pixels := Tiling.RenderSlab(s.width, j, h, pixel);
    forall x: nat, y: nat | x < s.width && j <= y < j + h
      ensures Tiling.PixelOffset(s.width, j, x, y) + 3 <= |pixels| &&
              pixels[Tiling.PixelOffset(s.width, j, x, y) .. Tiling.PixelOffset(s.width, j, x, y) + 3]
                == Colors.ToSlice(Cast(s, phys, phys.prime(x, y), 0))
    {
      Tiling.RasterOffset(s.width, j, h, pixel, x, y);
      assert pixel(x, y) == Colors.ToSlice(Cast(s, phys, phys.prime(x, y), 0));
    }
    if s.objects == [] || s.maxDepth == 0 {
      DarkSceneRendersZero(s, phys, j, h);
    }
  }

  /** A scene with no objects, or a depth limit of zero, renders all-zero
      bytes. */
  lemma DarkSceneRendersZero(s: Scene, phys: Physics, j: nat, h: nat)
    requires SqrtFunction(phys.sqrt)
    requires s.objects == [] || s.maxDepth == 0
    ensures forall i | 0 <= i < 3 * s.width * h :: Tiling.Raster(s.width, j, h, PixelColor(s, phys))[i] == 0
  {
    var pixel := PixelColor(s, phys);
    var pixels := Tiling.Raster(s.width, j, h, pixel);
    forall i | 0 <= i < |pixels|
      ensures pixels[i] == 0
    {
      var p := Tiling.PixelOf(s.width, i / 3);
      assert pixels[i] == pixel(p.0, j + p.1)[i % 3];
      assert Cast(s, phys, phys.prime(p.0, j + p.1), 0) == Colors.BLACK;
      Colors.ConstantsQuantize();
    }
  }

  /** `threaded_render(row_h)`: succeeds exactly when the chunks are
      non-empty and `row_h` divides the height; the image is then the rows
      of every slab in order. */
  method ThreadedRender(s: Scene, phys: Physics, rowH: nat) returns (r: Result<seq<Colors.Byte>, Tiling.RenderError>)
    requires SqrtFunction(phys.sqrt)
    ensures r.Success? <==> s.width > 0 && rowH > 0 && s.height % rowH == 0
    ensures r.Success? ==> r.value == Tiling.Raster(s.width, 0, s.height, PixelColor(s, phys))
  {
    r := Tiling.ThreadedRender(s.width, s.height, rowH, PixelColor(s, phys));
  }

  /** The objects' hit test in the shape the BVH takes it. */
  function ObjectHit(phys: Physics): (Object, Ray, real, real) -> Option<real>
    requires SqrtFunction(phys.sqrt)
  {
    (o, r, tmin, tmax) => Objects.Intersects(o, r, tmin, tmax, phys.sqrt)
  }

  /** Where the bounding boxes are conservative for a ray, a BVH built over
      the scene's objects finds a hit at the same distance as `trace`. */
  lemma BvhAgreesWithTrace(s: Scene, phys: Physics, bbox: Object -> Option<Boxes.Aabb>, axes: nat -> Axis, ray: Ray)
    requires SqrtFunction(phys.sqrt)
    requires |s.objects| >= 1
    requires Bvh.New(s.objects, bbox, axes).Success?
    requires NonZeroComponents(ray.direction)
    requires BvhQuery.Conservative(s.objects, bbox, ObjectHit(phys), ray, phys.tmin, phys.tmax)
    ensures Distance(BvhQuery.TreeHit(Bvh.New(s.objects, bbox, axes).value, ray, phys.tmin, phys.tmax, ObjectHit(phys)))
         == Distance(Trace(s, phys, ray))
  {
    BvhQuery.HitAgreesWithTrace(s.objects, bbox, axes, ObjectHit(phys), ray, phys.tmin, phys.tmax, HitTest(phys, ray));
  }
}
