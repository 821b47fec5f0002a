# Rustacean-Tracing core, modelled in Dafny

This project models the discrete core of a small Rust ray tracer:
- the bounding-volume hierarchy, a flat arena of nodes addressed by index;
- the axis-aligned box slab test;
- the nearest-hit scan over the scene's objects;
- the depth-bounded `cast` / `compute_color` recursion;
- sphere and plane hit windows;
- colour quantisation and texture lookup;
- the material constructors;
- the way the image is cut into row bands, flat pixel indices and flipped rows.

Numbers are Dafny `real`. A byte is the subset type `Byte` (0..255). Anything numerical with no discrete contract is a parameter:
- square root, normalisation, `powf`;
- the spherical light's falloff;
- camera rays;
- hemisphere samples.

The parameter square root is constrained to be a real square root (`s >= 0 && s * s == x`). The BVH is generic over the primitive it stores. It sees a primitive only through an optional bounding box and a hit function `(ray, tmin, tmax) -> Option<distance>`. The random split axis is a stream `axes: nat -> Axis` with one draw per `build` call.

Modules, one per source file or concept:
- `Wrappers`: `Option` and `Result`.
- `Maths`: min, max, and the square-root predicate.
- `Vectors`, `Rays`, `Intersections`.
- `Boxes`: aabb.rs.
- `Sorting`: a stable insertion sort.
- `Bvh` and `BvhQuery`: bvh.rs.
- `NearestHit`: the linear scan.
- `Objects`, `Materials`, `Colors`, `Textures`, `Lights`.
- `Scenes`: scene.rs.
- `Tiling`: the image partitioning in rendering.rs.
- `Sampling`: the rejection-sampling helpers in rendering.rs.

## Model

| member | source | states |
|---|---|---|
| Bvh.NewLeaf | src/bvh.rs:135-146 | appends exactly one node, returns the old arena length as its id, leaves earlier nodes unchanged; the new node is a leaf holding the object and its box |
| Bvh.NewNode | src/bvh.rs:148-159 | appends exactly one internal node with the given box and children at index old-length, earlier nodes unchanged |
| Bvh.WellFormedIsAcyclic | src/bvh.rs:111-128 | in a well-formed arena every child index is below its parent's |
| Bvh.NumberHittablesCountsLeaves | src/bvh.rs:161-176 | `number_hittables(id)` equals the number of leaf objects reachable from `id` |
| Bvh.LeafNodesAppend | src/bvh.rs:135-159 | the leaf-node count of an arena is additive over concatenation |
| Bvh.LeavesOfInternal | src/bvh.rs:148-159 | an internal node's children lie below it and its leaves are the left leaves followed by the right leaves |
| Bvh.LeavesFrame | src/bvh.rs:135-159 | appending nodes does not change the leaves of any existing node |
| Bvh.BoxCompare | src/bvh.rs:198-238 | comparison by box minimum on the axis; fails exactly when either box is missing; Less/Greater exactly when the keys are strictly ordered |
| Bvh.SortOn | src/bvh.rs:99-105 | the sort by the chosen axis is a permutation that is sorted by box minimum |
| Bvh.AllBoxedPermutation | src/bvh.rs:99-105 | sorting keeps every element's bounding box available |
| Bvh.JoinedPost | src/bvh.rs:109-128 | joining two built halves with a new internal node gives a well-formed, acyclic arena grown by 2n-1 whose root holds the union of the leaves |
| Bvh.Build | src/bvh.rs:96-133 | succeeds iff the slice has one element or every element has a box (otherwise the source panics); on success the arena grows by 2n-1 nodes, stays acyclic and well formed, the root is the last node and its leaves are a permutation of the slice |
| Bvh.BuildHalves | src/bvh.rs:109-120 | splitting at `len/2` (1 for two elements) builds each half with the same guarantees, and both roots have boxes |
| Bvh.BuildSorted | src/bvh.rs:107-128 | a sorted slice of one element, or of two or more boxed elements, builds a tree grown by 2n-1 nodes whose root is the last node, holds exactly the slice's elements and has a box |
| Bvh.SortedKeepsBoxes | src/bvh.rs:99-107 | the sorted slice still satisfies the build's precondition: one element, or every element boxed |
| Bvh.BuildPostPermutation | src/bvh.rs:96-107 | a tree holding the sorted slice's leaves also holds the unsorted slice's leaves, since sorting permutes |
| Bvh.LeafNodesOfJoin | src/bvh.rs:109-128 | the leaf count of the joined arena is the left half's leaf count plus the right half's, the new internal node adding none |
| Bvh.New | src/bvh.rs:86-94 | for n >= 1, the tree has 2n-1 nodes, the root is the last one, it is well formed, its leaves are a permutation of the input, and `number_hittables(root) == n` |
| Bvh.BuiltTree | src/bvh.rs:86-94 | a build from an empty arena yields 2n-1 nodes with the root last, a well-formed acyclic arena, the input's elements as leaves, and a leaf count of n |
| Bvh.BoundingBox | src/bvh.rs:178-180 | the tree's box is the root node's box |
| Bvh.BoxContainsLeaves | src/bvh.rs:122-128 | every node's box contains the box of every leaf below it |
| Bvh.BoundingBoxContainsLeaves | src/bvh.rs:178-180 | the tree's box contains the box of every primitive in the tree |
| BvhQuery.Closer | src/bvh.rs:51-68 | of two child hits, keeps one that exists and has the smaller distance, the right one on ties |
| BvhQuery.Intersects | src/bvh.rs:31-72 | a hit is always a leaf of the node with the primitive's own result; a node whose box misses yields None |
| BvhQuery.TreeHit | src/bvh.rs:182-184 | a hit from the tree is a primitive in the tree with that primitive's distance |
| BvhQuery.CloserOfNearest | src/bvh.rs:51-68 | the closer of the nearest hits of two leaf sets is the nearest hit of their union |
| BvhQuery.MissedBoxHidesLeaves | src/bvh.rs:34-71 | with conservative boxes, no primitive under a missed box can be hit |
| BvhQuery.IntersectsIsNearest | src/bvh.rs:31-72 | with conservative boxes, traversal finds a nearest hit among the node's leaves, None iff none is hit |
| BvhQuery.HitAgreesWithTrace | src/bvh.rs:182-184 | when the boxes of the slice's primitives are conservative for the ray (a boxed primitive that is hit has a valid box the ray passes; unboxed ones are unconstrained), the BVH hit has the same distance as the linear nearest-hit scan over the input slice |
| Boxes.ContainsTransitive | src/aabb.rs:35-47 | box containment is transitive |
| Boxes.SurroundingBox | src/aabb.rs:35-47 | the surrounding box contains both boxes and is valid when the first is |
| Boxes.SurroundingBoxIsLeast | src/aabb.rs:35-47 | any box containing both boxes contains the surrounding box |
| Boxes.SurroundingBoxLaws | src/aabb.rs:35-47 | the surrounding box is commutative and idempotent |
| Boxes.FfMax | src/aabb.rs:49-55 | returns one of its arguments, at least both |
| Boxes.FfMin | src/aabb.rs:57-63 | returns one of its arguments, at most both |
| Boxes.SlabStep | src/aabb.rs:18-24 | one axis step only narrows the window |
| Boxes.Narrow | src/aabb.rs:17-31 | the remaining axes only narrow the window, and a window still open after an axis is non-empty |
| Boxes.Hit | src/aabb.rs:11-32 | a true result implies the input window was non-empty |
| Boxes.EmptyWindowMisses | src/aabb.rs:23-28 | a window with `tmax <= tmin` never hits |
| Boxes.SlabStepKeepsZero | src/aabb.rs:18-24 | from inside the slab, an axis step keeps `tmin < 0 < tmax` |
| Boxes.NarrowKeepsZero | src/aabb.rs:17-31 | from inside the slabs of the remaining axes, narrowing never rejects a window around 0 |
| Boxes.HitFromInside | src/aabb.rs:11-32 | a ray starting strictly inside the box, with a window around 0, hits it |
| Boxes.SlabStepMonotone | src/aabb.rs:18-24 | a larger box and window give a larger window after an axis step |
| Boxes.NarrowMonotone | src/aabb.rs:17-31 | if the inner box survives all axes, so does a containing box |
| Boxes.HitMonotone | src/aabb.rs:11-32 | a ray that hits a box hits every box containing it |
| NearestHit.NearestIndex | src/scene.rs:61-74 | None iff no object hits; otherwise an object that hits, no farther than any other hit, with every strictly earlier hit strictly farther |
| NearestHit.Trace | src/scene.rs:61-74 | None iff no object hits; otherwise an object of the list with its own hit distance, no farther than any other hit |
| NearestHit.TraceKeepsEarliest | src/scene.rs:66-72 | ties in the scan go to the earliest object |
| Scenes.New | src/scene.rs:31-51 | the scene starts with no objects and no lights and stores every argument |
| Scenes.AddObj | src/scene.rs:53-55 | appends exactly one object and changes nothing else |
| Scenes.AddLight | src/scene.rs:57-59 | appends exactly one light and changes nothing else |
| Scenes.Trace | src/scene.rs:61-74 | None iff no object of the scene hits the ray; otherwise a scene object with its own hit distance, no farther than any other |
| Scenes.ShadowRay | src/scene.rs:92-97 | the shadow ray starts at the point pushed along the normal by the shadow bias and heads towards the light |
| Scenes.BlockedLightIsDark | src/scene.rs:99-105 | a light is dark at the point when an object hits the shadow ray short of the light |
| Scenes.UnblockedLightShines | src/scene.rs:99-105 | with no blocker, the light gives its full intensity |
| Scenes.Power | src/scene.rs:107 | light power is zero when the light is behind the surface or has no intensity |
| Scenes.Diffuse | src/scene.rs:109 | no power gives no diffuse colour |
| Scenes.Specular | src/scene.rs:111-116 | no intensity gives no specular colour |
| Scenes.LightShare | src/scene.rs:92-117 | a shadowed light contributes nothing; a light behind the surface contributes no diffuse term |
| Scenes.BlackSharesSumToBlack | src/scene.rs:87-121 | summing contributions that are all black gives black |
| Scenes.LightShares | src/scene.rs:91-117 | one contribution per light, in order |
| Scenes.DirectLighting | src/scene.rs:86-122 | when every light is shadowed, direct lighting is black |
| Scenes.Cast | src/scene.rs:76-84 | black whenever the depth has reached the maximum, and black when nothing is hit |
| Scenes.ComputeColor | src/scene.rs:191-213 | without reflectivity the colour is the lit colour with no reflection term; with reflectivity 1 it is the mirror ray's cast at depth + 1 |
| Scenes.LitColor | src/scene.rs:191-204 | with no samples the lit colour is exactly the direct lighting |
| Scenes.IndirectSum | src/scene.rs:124-159 | at the last depth every indirect sample is black |
| Scenes.MatteNeverReflects | src/materials.rs:47-57 | a matte material never takes the reflection branch of `compute_color` |
| Scenes.RenderSlab | src/scene.rs:251-260 | emits `3*width*h` bytes; pixel (x,y) of rows `j..j+h` is at offset `3*((y-j)*width+x)` and is the quantised cast of its prime ray; an empty or zero-depth scene renders all zero bytes |
| Scenes.DarkSceneRendersZero | src/scene.rs:77-83 | a scene with no objects or with no depth renders all zero bytes |
| Scenes.ThreadedRender | src/scene.rs:232-249 | succeeds iff the width and band height are positive and the band height divides the height; then the image is the whole row-major raster |
| Scenes.BvhAgreesWithTrace | src/scene.rs:61-74 | when the boxes of the scene's objects are conservative for the ray, a BVH over them finds a hit at the same distance as `trace` |
| Objects.NewSphere | src/objects.rs:56-62 | wraps the given sphere |
| Objects.NewPlane | src/objects.rs:104-110 | wraps the given plane |
| Objects.SphereIntersects | src/objects.rs:66-86 | None on a negative discriminant; a result always lies in `[t_min, t_max]` |
| Objects.RootInWindow | src/objects.rs:71-85 | None on a negative discriminant; a result lies in the window |
| Objects.PickRoot | src/objects.rs:78-84 | takes the nearer root when it is in the window and otherwise falls back to the farther one |
| Objects.OnSphereIsRoot | src/objects.rs:66-77 | a point at distance t lies on the sphere iff t solves the ray's quadratic |
| Objects.NormAlongRay | src/objects.rs:66-77 | the squared distance from the centre at parameter t is `|oc|^2 + 2t(oc.d) + t^2|d|^2` |
| Objects.QuadraticRoots | src/objects.rs:71-84 | the two candidate roots are exactly the solutions of the quadratic |
| Objects.RootsOnSphere | src/objects.rs:71-84 | both candidate roots lie on the sphere |
| Objects.SphereHitOnSurface | src/objects.rs:66-86 | a sphere hit lies on the sphere |
| Objects.SphereNearestRoot | src/objects.rs:66-86 | if any in-window point of the ray lies on the sphere, the sphere reports a hit no farther than it |
| Objects.NearestOfQuadratic | src/objects.rs:71-85 | the picked root is no farther than any in-window root |
| Objects.NearerRootFirst | src/objects.rs:78-84 | the smaller root is taken when in window, else the larger one is the only root in the window |
| Objects.PlaneIntersects | src/objects.rs:114-127 | None when the normal is almost perpendicular to the ray; a hit lies beyond 1e-6 and on the plane |
| Objects.PlaneCrossing | src/objects.rs:114-124 | the computed distance reaches the plane |
| Objects.PlaneIgnoresWindow | src/objects.rs:114-127 | the window does not affect the plane's result |
| Objects.PlaneSurfaceNormal | src/objects.rs:129-131 | the surface normal is the negated stored normal |
| Objects.PlaneOutwardNormal | src/objects.rs:133-136 | the outward normal is the zero vector |
| Objects.OutwardNormalScalesBack | src/objects.rs:92-94 | the sphere's outward normal times the radius is the offset from the centre |
| Objects.MaterialOf | src/objects.rs:18-23 | dispatches to the wrapped variant's material |
| Objects.Intersects | src/objects.rs:27-32 | dispatches to the wrapped variant's hit test unchanged |
| Objects.SurfaceNormal | src/objects.rs:34-39 | dispatches to the wrapped variant's surface normal |
| Objects.OutwardNormal | src/objects.rs:41-46 | dispatches to the wrapped variant's outward normal |
| Materials.New | src/materials.rs:15-33 | stores all five arguments unchanged |
| Materials.Shiny | src/materials.rs:35-45 | keeps colour, albedo and reflectivity and fixes `phong_n = 1250`, `phong_ks = 0.2` |
| Materials.Matte | src/materials.rs:47-57 | keeps colour and albedo and zeroes reflectivity, `phong_n` and `phong_ks`; never reflective |
| Colors.Quantize | src/color.rs:20-26 | a channel <= 0 maps to 0, >= 1 maps to 255, and in between to the floor of 255 times the channel |
| Colors.QuantizeMonotone | src/color.rs:20-26 | quantisation is monotone |
| Colors.ToSlice | src/color.rs:20-26 | three bytes, each the quantised channel |
| Colors.Clamp01 | src/color.rs:28-34 | lies in [0,1], is the identity there, and saturates outside |
| Colors.ToVecF32 | src/color.rs:28-34 | exactly three values, each in [0,1], each the clamped channel |
| Colors.FromRgb | src/color.rs:48-54 | each channel is its byte divided by 255, so it lies in [0,1] |
| Colors.FromRgbToSliceRoundTrip | src/color.rs:16-54 | `to_slice(from_rgb(r,g,b)) == [r,g,b]` |
| Colors.ConstantsQuantize | src/color.rs:57-81 | BLACK, WHITE, RED, GREEN and BLUE quantise to their byte triples, RED's 255.0 channel included |
| Colors.Sqrt | src/color.rs:40-46 | each non-negative channel maps to its square root |
| Colors.AddSubLaws | src/color.rs:83-105 | addition is commutative with BLACK as identity, subtraction undoes addition, and `a - b == a + (-b)` |
| Colors.MulLaws | src/color.rs:107-149 | negation is an involution and equals scaling by -1; colour product is commutative with WHITE as identity; scaling is a product with a grey colour |
| Colors.ScaleCommutes | src/color.rs:119-137 | `s * c == c * s` |
| Colors.ScalarDivIsNotReciprocal | src/color.rs:175-181 | `s / c` is `c / s`, not the reciprocal: `2 / WHITE` is grey 0.5 |
| Colors.ScalarDivScalesDown | src/color.rs:175-181 | for every non-zero s, `s / c` is c scaled by 1/s, and scaling it back by s restores c |
| Colors.DivScalarUndoesScale | src/color.rs:119-161 | dividing by a non-zero scalar undoes scaling by it |
| Textures.Clamp | src/texture.rs:6-8 | lies in [lo, hi] when lo <= hi and is the identity on values in range |
| Textures.GetPixel | src/texture.rs:111 | an image lookup succeeds exactly in bounds and yields that pixel |
| Textures.CellIndex | src/texture.rs:103-107 | the scaled index is below the dimension and is the floor of t times it, below the end |
| Textures.ColumnIndex | src/texture.rs:100-106 | the column index is at most width-1 |
| Textures.RowIndex | src/texture.rs:101-107 | the row index from the flipped v is at most height-1 |
| Textures.ImageColorAsWritten | src/texture.rs:99-114 | the lookup as written: an empty image fails; otherwise it succeeds exactly when the row index is below the width and the column index below the height, and then reads the pixel at (row index, column index) |
| Textures.AsWrittenFailsOffSquare | src/texture.rs:111 | at uv=(1,0) the lookup as written succeeds exactly for square images |
| Textures.AsWrittenPanicsOnWideStrip | src/texture.rs:111 | on a 2x1 image at uv=(1,0) the lookup as written is out of bounds |
| Textures.ImageColor | src/texture.rs:99-114 | succeeds iff the image is non-empty, reads the clamped column and flipped row, channels in [0,1] |
| Textures.ImageCorners | src/texture.rs:99-114 | uv (1,1) reads the top-right pixel and (0,0) the bottom-left one |
| Textures.CheckerColor | src/texture.rs:69-78 | always one of the two colours; the first exactly when the sine product is negative |
| Textures.CheckerAlternates | src/texture.rs:69-78 | mirroring x flips the sine product's sign, and so swaps the colours |
| Textures.GetColorUv | src/texture.rs:19-25 | a solid colour is returned as is and a checkerboard gives its checker colour; the image arm gives the corrected lookup `ImageColor`, not the transposed one (see Left out) |
| Lights.NewDirectional | src/lights.rs:11-17 | stores direction, colour and intensity |
| Lights.NewSpherical | src/lights.rs:27-33 | stores position, colour and intensity |
| Lights.RelDirection | src/lights.rs:49-54 | the opposite of a directional light's direction; a spherical light's normalised offset |
| Lights.Intensity | src/lights.rs:56-64 | a directional light's own intensity; the falloff of a spherical light's at the point's distance |
| Lights.RelDistance | src/lights.rs:66-71 | infinite exactly for a directional light; otherwise the Euclidean distance to the light |
| Rays.Reflection | src/ray.rs:29-35 | for a unit normal the reflected direction has the incident component along the normal negated |
| Tiling.PixelOf | src/rendering.rs:596-601 | the column of flat index i is `i % width`, below the width |
| Tiling.PixelIndexBijection | src/rendering.rs:596-601 | `i -> (i % width, i / width)` and `(x, y) -> y*width + x` are inverse bijections between `[0, width*height)` and the pixel grid |
| Tiling.Raster | src/rendering.rs:681-711 | the reference row-major raster of a band holds `3*width*h` bytes |
| Tiling.RasterOffset | src/rendering.rs:692-710 | pixel (x,y) of the band starting at row j sits at byte offset `3*((y-j)*width + x)` |
| Tiling.RasterAppend | src/rendering.rs:648-663 | the raster of two adjacent bands is the concatenation of their rasters |
| Tiling.RasterAppendAt | src/rendering.rs:648-663 | every byte of two adjacent band rasters, concatenated, is the byte at that index of the combined band |
| Tiling.SkipWholeRows | src/rendering.rs:596-601 | moving a flat index on by h whole rows keeps the column and adds h to the row |
| Tiling.BandsCover | src/rendering.rs:629-663 | when the band height divides the height, the bands together cover exactly the height |
| Tiling.RowIsRaster | src/rendering.rs:693-709 | one row rendered left to right is the raster of a one-row band |
| Tiling.RenderSlab | src/rendering.rs:681-711 | the nested loops produce exactly the band's raster, `3*width*h` bytes |
| Tiling.ThreadedRender | src/rendering.rs:619-679 | chunks of `3*width*row_h` bytes starting at row `row_h*i` tile the image iff the band height divides the height; otherwise the slab-length mismatch is reported with both lengths |
| Tiling.ThreadedRenderV2 | src/rendering.rs:573-617 | each three-byte chunk i holds pixel `(i % width, i / width)`, and the whole image is the row-major raster; a zero-width image has no chunks and comes back empty |
| Tiling.AppendPixel | src/rendering.rs:596-607 | appending pixel p's three bytes to an image holding the first p pixels' raster gives the raster of p+1 pixels |
| Tiling.RasterChunk | src/rendering.rs:596-601 | three-byte chunk q of the row-major raster is pixel `(q % width, q / width)` |
| Tiling.FlipRow | src/rendering.rs:199-203 | `height-1-y` stays in `[0, height)` |
| Tiling.FlipRowInvolution | src/rendering.rs:199-203 | the flip is its own inverse, hence a bijection |
| Tiling.BlackImage | src/rendering.rs:172 | a grid of the image's size in which every pixel is [0, 0, 0] |
| Tiling.Render | src/rendering.rs:162-212 | image row `height-1-y` holds sample row y |
| Tiling.BvhByte | src/rendering.rs:252-256 | `(255.99*c).min(255)` truncated: a byte, at most 255.99c, less than one below it, and exactly 255 once 255.99c reaches 255 |
| Tiling.BvhByteMonotone | src/rendering.rs:252-256 | the byte grows with the channel |
| Tiling.BvhPixel | src/rendering.rs:252-256 | each byte quantises the channel clamped to [0,1] |
| Tiling.BvhRender | src/rendering.rs:213-276 | exactly `3*width*height` bytes, rows ordered from `height-1` down to 0 |
| Sampling.RandomSphereDistribution | src/rendering.rs:59-71 | returns the first draw inside the unit ball, None iff no draw is inside |
| Sampling.RandomInUnitDisk | src/rendering.rs:82-90 | returns the first draw inside the unit disk with z = 0, None iff none is inside |
| Sampling.Hemisphere | src/rendering.rs:73-80 | the vector or its negation, whichever is on the normal's side; the norm is kept |
| Sampling.RandomHemisphereDistribution | src/rendering.rs:73-80 | a sample inside the unit ball whose dot product with the normal is >= 0 |
| Sorting.Insert | src/bvh.rs:99-105 | inserting into a sorted sequence keeps it sorted and adds exactly the element |
| Sorting.SortedCons | src/bvh.rs:99-105 | putting an element no larger than the head in front of a sorted sequence keeps it sorted |
| Sorting.Sort | src/bvh.rs:99-105 | the result is sorted by the key and is a permutation of the input |
| Maths.Min | src/aabb.rs:37-39 | one of the arguments, at most both |
| Maths.Max | src/aabb.rs:42-44 | one of the arguments, at least both |

## Left out

- Floating point: f32/f64 rounding, NaN and infinity, and the exact error of `as u8` truncation. Numbers are reals.
- Boxes.Hit: requires every direction component to be non-zero. The source divides by zero there and relies on IEEE infinities.
- Objects.SphereIntersects: a zero ray direction makes the source divide by zero and return NaN. The model returns None.
- Objects.SphereNearestRoot: requires a non-zero ray direction for the same reason.
- Tiling.ThreadedRender: the chunk size `width * 3 * row_h` and the band start `row_h * i` are unbounded naturals. The source computes both in u32, so once `3*width*row_h >= 2^32` a debug build panics and a release build wraps, where the model still tiles the raster.
- Scenes.ThreadedRender: the same u32 chunk-size and band-start arithmetic (scene.rs:234, 243) is unbounded in the model.
- Textures.GetColorUv: the image arm uses the corrected lookup `ImageColor`. The source dispatches to the transposed `get_pixel(j, i)` of texture.rs:111, which `ImageColorAsWritten` models (see Findings); on a non-square image the source can panic where the model returns a colour.
- Textures.CheckerAlternates: sine is a parameter. Its oddness is assumed only at the one point the lemma needs.
- Vectors: vec3.rs is not part of this model. The vector operations are written out over reals, and `normalize` is a parameter.
- Ray::prime and the camera's `get_ray` (ray.rs:10-27, rendering.rs:107-160): camera geometry, passed in as `prime`.
- Spherical light falloff and `powf`: float physics, passed in as parameters.
- Monte Carlo integration (scene.rs:124-159, rendering.rs:191-202): the random numbers, `uniform_sample_hemisphere` and `local_coord_sytem` are one `sample` parameter. Only the structure of the sum and its depth cutoff are modelled.
- The random generator: rejection sampling runs over a finite sequence of candidate draws and returns None when it is exhausted. The source loops until a draw succeeds.
- Scenes.IndirectSum: states only the depth cutoff, not the value of the estimate.
- Scenes.DirectLighting: states only the all-shadowed case. Shading is `powf`, `normalize` and reflection geometry.
- Scenes.ShadowedIntensity: has no contract of its own. Its two cases are the lemmas `BlockedLightIsDark` and `UnblockedLightShines`.
- Scene::render (scene.rs:215-230): a sequential variant of the slab render writing through `put_pixel`; not modelled separately.
- scene.rs's one-argument `intersects` versus the windowed one in objects.rs: the two revisions disagree. `Scenes` threads the window `[tmin, tmax]` from the `Physics` record.
- Concurrency: rayon `par_chunks_mut` / `into_par_iter` and the progress bar. Only the sequential partition they are given is modelled.
- I/O and foreign libraries: the `image` crate buffers, `flip_vertical`, `save`, the `DynamicImage` pixel fetch, and the OIDN denoiser.
- Sorting.Sort: sorted and a permutation. Stability, which Rust's `sort_by` also gives, is not proved.
- Bvh.Build: the empty slice is excluded by precondition, since the source recurses forever on it.
- Bvh Display (bvh.rs:187-196): text formatting only.
- main.rs: scene authoring.
- intersection.rs: only a (distance, object) record, modelled as a datatype with no properties of its own.

## Findings

| source | as written | input that shows it | evidently intended | confidence | as-written member | corrected member |
|---|---|---|---|---|---|---|
| src/texture.rs:111 | `get_pixel(j, i)` passes the row index, bounded by the height, as the x coordinate, and the column index as y | a 2x1 image (width 2, height 1) at uv=(1.0, 0.0): i = 1, j = 0, so it reads pixel (0, 1), which is out of bounds | `get_pixel(i, j)`: column first, so every uv in [0,1]² reads an in-bounds pixel of any non-empty image | not executed | Textures.ImageColorAsWritten | Textures.ImageColor |
