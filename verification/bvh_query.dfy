/** Traversal of the bounding-volume hierarchy (`BvhTree::intersects` and
    `BvhTree::hit` in bvh.rs). A node whose box is missing or passes the slab
    test is entered; a leaf answers with its primitive's own hit; an internal
    node asks both children and keeps the closer hit, the right one on ties.

    `hit(t, ray, tmin, tmax)` is a primitive's intersection test. */
module BvhQuery {
  import opened Wrappers
  import opened Vectors
  import opened Rays
  import opened Boxes
  import opened Intersections
  import opened Bvh
  import NearestHit

  /** The choice between the children's hits: the left one only when it is
      strictly closer. */
  function Closer<T>(hl: Option<Intersection<T>>, hr: Option<Intersection<T>>): (h: Option<Intersection<T>>)
    ensures h.None? <==> hl.None? && hr.None?
    ensures h == hl || h == hr
    ensures h.Some? && hl.Some? ==> h.value.distance <= hl.value.distance
    ensures h.Some? && hr.Some? ==> h.value.distance <= hr.value.distance
    ensures hl.Some? && hr.Some? && hl.value.distance == hr.value.distance ==> h == hr
  {
    match hl
    case Some(l) =>
      (match hr
       case Some(r) => if l.distance < r.distance then hl else hr
       case None => hl)
    case None => hr
  }

  /** `BvhTree::intersects`: a hit it reports is a hit of one of the node's
      primitives at the distance that primitive reports. */
  function Intersects<T(==)>(nodes: seq<Node<T>>, id: NodeId, r: Ray, tmin: real, tmax: real,
                             hit: (T, Ray, real, real) -> Option<real>): (h: Option<Intersection<T>>)
    requires Acyclic(nodes) && id < |nodes|
    requires NonZeroComponents(r.direction)
    decreases id
    ensures h.Some? ==> h.value.obj in Leaves(nodes, id) && hit(h.value.obj, r, tmin, tmax) == Some(h.value.distance)
    ensures nodes[id].aabb.Some? && !Hit(nodes[id].aabb.value, r, tmin, tmax) ==> h.None?
  {
    var n := nodes[id];
    assert ChildrenBelow(nodes, id);
    if n.aabb.None? || Hit(n.aabb.value, r, tmin, tmax) then
      match n.obj
      case Some(o) =>
        (match hit(o, r, tmin, tmax)
         case None => None
         case Some(d) => Some(Intersection(d, o)))
      case None =>
        var hl := if n.left.Some? then Intersects(nodes, n.left.value, r, tmin, tmax, hit) else None;
        var hr := if n.right.Some? then Intersects(nodes, n.right.value, r, tmin, tmax, hit) else None;
        Closer(hl, hr)
    else None
  }

  /** `BvhTree::hit`: traversal from the root. */
  function TreeHit<T(==)>(tree: Tree<T>, r: Ray, tmin: real, tmax: real,
                          hit: (T, Ray, real, real) -> Option<real>): (h: Option<Intersection<T>>)
    requires Acyclic(tree.nodes) && tree.root < |tree.nodes|
    requires NonZeroComponents(r.direction)
    ensures h.Some? ==> h.value.obj in Leaves(tree.nodes, tree.root)
    ensures h.Some? ==> hit(h.value.obj, r, tmin, tmax) == Some(h.value.distance)
  {
    Intersects(tree.nodes, tree.root, r, tmin, tmax, hit)
  }

  /** Every primitive of `s` that the ray hits in the window and that has a
      box has a valid box that the ray's slab test also passes: the boxes
      never miss a real hit. A primitive without a box is unconstrained. */
  ghost predicate Conservative<T>(s: seq<T>, bbox: T -> Option<Aabb>, hit: (T, Ray, real, real) -> Option<real>,
                                  r: Ray, tmin: real, tmax: real)
    requires NonZeroComponents(r.direction)
  {
    forall t | t in s :: hit(t, r, tmin, tmax).Some? && bbox(t).Some? ==>
      Valid(bbox(t).value) && Hit(bbox(t).value, r, tmin, tmax)
  }

  /** `h` is the nearest hit among the primitives `s`: it is missing exactly
      when none of them is hit, and no farther than any of their hits. */
  ghost predicate NearestAmong<T>(h: Option<Intersection<T>>, s: seq<T>, hit: (T, Ray, real, real) -> Option<real>,
                            r: Ray, tmin: real, tmax: real)
  {
    && (h.None? <==> forall t | t in s :: hit(t, r, tmin, tmax).None?)
    && (h.Some? ==> forall t | t in s && hit(t, r, tmin, tmax).Some? :: h.value.distance <= hit(t, r, tmin, tmax).value)
  }

  /** Keeping the closer of the nearest hits of two groups gives the nearest
      hit of both together. */
  lemma CloserOfNearest<T>(hl: Option<Intersection<T>>, hr: Option<Intersection<T>>, a: seq<T>, b: seq<T>,
                           hit: (T, Ray, real, real) -> Option<real>, r: Ray, tmin: real, tmax: real)
    requires NearestAmong(hl, a, hit, r, tmin, tmax) && NearestAmong(hr, b, hit, r, tmin, tmax)
    ensures NearestAmong(Closer(hl, hr), a + b, hit, r, tmin, tmax)
  {
    var h := Closer(hl, hr);
    forall t | t in a + b && hit(t, r, tmin, tmax).Some?
      ensures h.Some? && h.value.distance <= hit(t, r, tmin, tmax).value
    {
      if t in a {
        assert hl.Some?;
      } else {
        assert hr.Some?;
      }
    }
  }

  /** A node whose box the ray misses has no hit primitive below it. */
  lemma MissedBoxHidesLeaves<T(!new)>(nodes: seq<Node<T>>, id: NodeId, r: Ray, tmin: real, tmax: real,
                                      bbox: T -> Option<Aabb>, hit: (T, Ray, real, real) -> Option<real>)
    requires WellFormed(nodes, bbox) && Acyclic(nodes) && id < |nodes|
    requires NonZeroComponents(r.direction)
    requires Conservative(Leaves(nodes, id), bbox, hit, r, tmin, tmax)
    requires nodes[id].aabb.Some? && !Hit(nodes[id].aabb.value, r, tmin, tmax)
    ensures forall t | t in Leaves(nodes, id) :: hit(t, r, tmin, tmax).None?
  {
    BoxContainsLeaves(nodes, id, bbox);
    forall t | t in Leaves(nodes, id)
      ensures hit(t, r, tmin, tmax).None?
    {
      if hit(t, r, tmin, tmax).Some? {
        HitMonotone(nodes[id].aabb.value, bbox(t).value, r, tmin, tmax);
      }
    }
  }

  /** With conservative boxes, the traversal finds the nearest hit among the
      node's primitives: nothing is found exactly when no primitive below is
      hit, and what is found is no farther than any primitive's hit. */
  lemma {:induction false} IntersectsIsNearest<T(!new)>(nodes: seq<Node<T>>, id: NodeId, r: Ray, tmin: real, tmax: real,
                                                     bbox: T -> Option<Aabb>, hit: (T, Ray, real, real) -> Option<real>)
    requires WellFormed(nodes, bbox) && Acyclic(nodes) && id < |nodes|
    requires NonZeroComponents(r.direction)
    requires Conservative(Leaves(nodes, id), bbox, hit, r, tmin, tmax)
    decreases id
    ensures NearestAmong(Intersects(nodes, id, r, tmin, tmax, hit), Leaves(nodes, id), hit, r, tmin, tmax)
  {
    var n := nodes[id];
    assert WellFormedAt(nodes, id, bbox);
    if n.aabb.Some? && !Hit(n.aabb.value, r, tmin, tmax) {
      MissedBoxHidesLeaves(nodes, id, r, tmin, tmax, bbox, hit);
    } else if IsLeaf(nodes, id, bbox) {
      assert Leaves(nodes, id) == [n.obj.value];
    } else {
      var a := n.left.value;
      var b := n.right.value;
      LeavesOfInternal(nodes, id);
      assert forall t | t in Leaves(nodes, a) :: t in Leaves(nodes, id);
      assert forall t | t in Leaves(nodes, b) :: t in Leaves(nodes, id);
      IntersectsIsNearest(nodes, a, r, tmin, tmax, bbox, hit);
      IntersectsIsNearest(nodes, b, r, tmin, tmax, bbox, hit);
      CloserOfNearest(Intersects(nodes, a, r, tmin, tmax, hit), Intersects(nodes, b, r, tmin, tmax, hit),
                      Leaves(nodes, a), Leaves(nodes, b), hit, r, tmin, tmax);
    }
  }

  /** The tree and the linear scan of `Scene::trace` over the primitives the
      tree was built from agree on the distance of the nearest hit; `f` is
      the scan's hit test for the ray and window. */
  lemma HitAgreesWithTrace<T(!new)>(l: seq<T>, bbox: T -> Option<Aabb>, axes: nat -> Axis,
                                  hit: (T, Ray, real, real) -> Option<real>, r: Ray, tmin: real, tmax: real,
                                  f: T -> Option<real>)
    requires |l| >= 1
    requires New(l, bbox, axes).Success?
    requires NonZeroComponents(r.direction)
    requires Conservative(l, bbox, hit, r, tmin, tmax)
    requires forall t :: f(t) == hit(t, r, tmin, tmax)
    ensures Distance(TreeHit(New(l, bbox, axes).value, r, tmin, tmax, hit)) == Distance(NearestHit.Trace(l, f))
  {
    var tree := New(l, bbox, axes).value;
    var leaves := Leaves(tree.nodes, tree.root);
    var th := TreeHit(tree, r, tmin, tmax, hit);
    var sh := NearestHit.Trace(l, f);
    assert forall t :: t in leaves <==> t in l by {
      forall t ensures t in leaves <==> t in l {
        assert t in leaves <==> t in multiset(leaves);
        assert t in l <==> t in multiset(l);
      }
    }
    IntersectsIsNearest(tree.nodes, tree.root, r, tmin, tmax, bbox, hit);
    if th.None? {
      assert forall i | 0 <= i < |l| :: f(l[i]).None? by {
        forall i | 0 <= i < |l| ensures f(l[i]).None? {
          assert l[i] in leaves;
        }
      }
    } else {
      assert th.value.obj in l;
      assert sh.Some?;
      assert sh.value.distance <= th.value.distance;
      assert sh.value.obj in leaves;
      assert th.value.distance <= sh.value.distance;
    }
  }
}
