/** Construction of the bounding-volume hierarchy (bvh.rs). Nodes live in a
    flat arena addressed by index; `new_leaf` and `new_node` append one node
    and return its index; `build` sorts the slice on a randomly drawn axis,
    splits it at `len / 2` and wraps the two subtrees in an internal node.

    The BVH sees a primitive only through its optional bounding box `bbox`.
    The random axis of each `build` call is the next value of the stream
    `axes`, and a build threads the index of the next draw. */
module Bvh {
  import opened Wrappers
  import opened Vectors
  import opened Boxes
  import Sorting

  /** `NodeId { index }`. */
  type NodeId = nat

  /** `BvhNode`: a leaf has an object and no children; an internal node has
      two children and no object. The record itself does not enforce this. */
  datatype Node<T(==)> = Node(left: Option<NodeId>, right: Option<NodeId>, aabb: Option<Aabb>, obj: Option<T>)

  datatype Tree<T(==)> = Tree(nodes: seq<Node<T>>, root: NodeId)

  /** The panic "No bounding box in BvhNode::..." */
  datatype BuildError = NoBoundingBox

  /** The arena after one allocation, and the index of the new node. */
  datatype Alloc<T(==)> = Alloc(nodes: seq<Node<T>>, id: NodeId)

  /** The arena after a build, the subtree's root, and the next random draw. */
  datatype Built<T(==)> = Built(nodes: seq<Node<T>>, id: NodeId, draw: nat)

  /** `nodes'` is `nodes` with `added` more nodes appended. */
  predicate Extends<T(==)>(nodes': seq<Node<T>>, nodes: seq<Node<T>>, added: nat) {
    |nodes'| == |nodes| + added && nodes'[..|nodes|] == nodes
  }

  /** `new_leaf`. */
  function NewLeaf<T(==)>(nodes: seq<Node<T>>, obj: T, bbox: T -> Option<Aabb>): (r: Alloc<T>)
    ensures Extends(r.nodes, nodes, 1)
    ensures r.id == |nodes|
    ensures r.nodes[r.id] == Node(None, None, bbox(obj), Some(obj))
  {
    Alloc(nodes + [Node(None, None, bbox(obj), Some(obj))], |nodes|)
  }

  /** `new_node`. */
  function NewNode<T(==)>(nodes: seq<Node<T>>, aabb: Aabb, left: Option<NodeId>, right: Option<NodeId>): (r: Alloc<T>)
    ensures Extends(r.nodes, nodes, 1)
    ensures r.id == |nodes|
    ensures r.nodes[r.id] == Node(left, right, Some(aabb), None)
  {
    Alloc(nodes + [Node(left, right, Some(aabb), None)], |nodes|)
  }

  predicate ChildrenBelow<T(==)>(nodes: seq<Node<T>>, i: nat)
    requires i < |nodes|
  {
    && (nodes[i].left.Some? ==> nodes[i].left.value < i)
    && (nodes[i].right.Some? ==> nodes[i].right.value < i)
  }

  /** Every child index is smaller than its parent's, so following children
      always terminates. */
  predicate Acyclic<T(==)>(nodes: seq<Node<T>>) {
    forall i | 0 <= i < |nodes| :: ChildrenBelow(nodes, i)
  }

  /** A leaf: an object, no children, the object's own box. */
  predicate IsLeaf<T(==)>(nodes: seq<Node<T>>, i: nat, bbox: T -> Option<Aabb>)
    requires i < |nodes|
  {
    var n := nodes[i];
    n.obj.Some? && n.left.None? && n.right.None? && n.aabb == bbox(n.obj.value)
  }

  /** An internal node: no object, two earlier children that both have a box,
      and the surrounding box of the two. */
  predicate IsInternal<T(==)>(nodes: seq<Node<T>>, i: nat)
    requires i < |nodes|
  {
    var n := nodes[i];
    && n.obj.None? && n.left.Some? && n.right.Some?
    && n.left.value < i && n.right.value < i
    && nodes[n.left.value].aabb.Some? && nodes[n.right.value].aabb.Some?
    && n.aabb == Some(SurroundingBox(nodes[n.left.value].aabb.value, nodes[n.right.value].aabb.value))
  }

  predicate WellFormedAt<T(==)>(nodes: seq<Node<T>>, i: nat, bbox: T -> Option<Aabb>)
    requires i < |nodes|
  {
    IsLeaf(nodes, i, bbox) || IsInternal(nodes, i)
  }

  /** Both children of node `i`, if any, lie at or above index `base`. */
  predicate ChildrenFrom<T(==)>(nodes: seq<Node<T>>, i: nat, base: nat)
    requires i < |nodes|
  {
    && (nodes[i].left.Some? ==> base <= nodes[i].left.value)
    && (nodes[i].right.Some? ==> base <= nodes[i].right.value)
  }

  /** Every node from `base` on is a leaf or an internal node whose children
      are also from `base` on. */
  predicate SegmentWellFormed<T(==)>(nodes: seq<Node<T>>, base: nat, bbox: T -> Option<Aabb>) {
    forall i | base <= i < |nodes| :: WellFormedAt(nodes, i, bbox) && ChildrenFrom(nodes, i, base)
  }

  predicate WellFormed<T(==)>(nodes: seq<Node<T>>, bbox: T -> Option<Aabb>) {
    forall i | 0 <= i < |nodes| :: WellFormedAt(nodes, i, bbox)
  }

  lemma WellFormedIsAcyclic<T>(nodes: seq<Node<T>>, bbox: T -> Option<Aabb>)
    requires WellFormed(nodes, bbox)
    ensures Acyclic(nodes)
  {
    forall i | 0 <= i < |nodes|
      ensures ChildrenBelow(nodes, i)
    {
      assert WellFormedAt(nodes, i, bbox);
    }
  }

  /** The objects at the leaves of the subtree at `id`, left to right. */
  function Leaves<T(==)>(nodes: seq<Node<T>>, id: NodeId): seq<T>
    requires Acyclic(nodes) && id < |nodes|
    decreases id
  {
    var n := nodes[id];
    assert ChildrenBelow(nodes, id);
    (if n.obj.Some? then [n.obj.value] else [])
    + (if n.left.Some? then Leaves(nodes, n.left.value) else [])
    + (if n.right.Some? then Leaves(nodes, n.right.value) else [])
  }

  /** `number_hittables`: the node's own object plus the counts of its children. */
  function NumberHittables<T(==)>(nodes: seq<Node<T>>, id: NodeId): nat
    requires Acyclic(nodes) && id < |nodes|
    decreases id
  {
    var n := nodes[id];
    assert ChildrenBelow(nodes, id);
    var local := if n.obj.Some? then 1 else 0;
    var countLeft := if n.left.Some? then NumberHittables(nodes, n.left.value) else 0;
    var countRight := if n.right.Some? then NumberHittables(nodes, n.right.value) else 0;
    local + countLeft + countRight
  }

  /** `number_hittables` counts exactly the leaves of the subtree. */
  lemma {:induction false} NumberHittablesCountsLeaves<T>(nodes: seq<Node<T>>, id: NodeId)
    requires Acyclic(nodes) && id < |nodes|
    ensures NumberHittables(nodes, id) == |Leaves(nodes, id)|
    decreases id
  {
    var n := nodes[id];
    assert ChildrenBelow(nodes, id);
    if n.left.Some? {
      NumberHittablesCountsLeaves(nodes, n.left.value);
    }
    if n.right.Some? {
      NumberHittablesCountsLeaves(nodes, n.right.value);
    }
  }

  /** The number of leaf nodes (nodes holding an object) in a run of nodes. */
  function LeafNodes<T(==)>(s: seq<Node<T>>): nat {
    if |s| == 0 then 0
    else LeafNodes(s[..|s| - 1]) + (if s[|s| - 1].obj.Some? then 1 else 0)
  }

  lemma {:induction false} LeafNodesAppend<T>(a: seq<Node<T>>, b: seq<Node<T>>)
    ensures LeafNodes(a + b) == LeafNodes(a) + LeafNodes(b)
    decreases |b|
  {
    if |b| == 0 {
      assert a + b == a;
    } else {
      assert (a + b)[..|a + b| - 1] == a + b[..|b| - 1];
      LeafNodesAppend(a, b[..|b| - 1]);
    }
  }

  /** The leaves of a node without an object are its children's leaves. */
  lemma LeavesOfInternal<T>(nodes: seq<Node<T>>, id: NodeId)
    requires Acyclic(nodes) && id < |nodes|
    requires nodes[id].obj.None? && nodes[id].left.Some? && nodes[id].right.Some?
    ensures nodes[id].left.value < id && nodes[id].right.value < id
    ensures Leaves(nodes, id) == Leaves(nodes, nodes[id].left.value) + Leaves(nodes, nodes[id].right.value)
  {
    assert ChildrenBelow(nodes, id);
    var a := Leaves(nodes, nodes[id].left.value);
    var b := Leaves(nodes, nodes[id].right.value);
    assert Leaves(nodes, id) == [] + a + b;
    assert [] + a == a;
  }

  /** Appending nodes does not change the subtree of an existing node. */
  lemma {:induction false} LeavesFrame<T>(nodes: seq<Node<T>>, nodes': seq<Node<T>>, id: NodeId)
    requires Acyclic(nodes) && Acyclic(nodes')
    requires |nodes| <= |nodes'| && nodes'[..|nodes|] == nodes
    requires id < |nodes|
    ensures Leaves(nodes', id) == Leaves(nodes, id)
    decreases id
  {
    assert nodes'[id] == nodes[id];
    assert ChildrenBelow(nodes, id);
    var n := nodes[id];
    if n.left.Some? {
      LeavesFrame(nodes, nodes', n.left.value);
    }
    if n.right.Some? {
      LeavesFrame(nodes, nodes', n.right.value);
    }
  }

  lemma WellFormedAtFrame<T>(nodes: seq<Node<T>>, nodes': seq<Node<T>>, i: nat, base: nat, bbox: T -> Option<Aabb>)
    requires |nodes| <= |nodes'| && nodes'[..|nodes|] == nodes
    requires i < |nodes|
    requires WellFormedAt(nodes, i, bbox) && ChildrenFrom(nodes, i, base)
    ensures WellFormedAt(nodes', i, bbox) && ChildrenFrom(nodes', i, base)
  {
    assert nodes'[i] == nodes[i];
    if IsInternal(nodes, i) {
      assert nodes'[nodes[i].left.value] == nodes[nodes[i].left.value];
      assert nodes'[nodes[i].right.value] == nodes[nodes[i].right.value];
    }
  }

  /** Every primitive has a bounding box. */
  predicate AllBoxed<T(==)>(l: seq<T>, bbox: T -> Option<Aabb>) {
    forall i | 0 <= i < |l| :: bbox(l[i]).Some?
  }

  /** The sort key: the minimum corner of the primitive's box on `axis`. The
      build only sorts slices whose primitives all have boxes; the 0.0 for a
      missing box is never compared. */
  function Key<T(==)>(bbox: T -> Option<Aabb>, axis: Axis, t: T): real {
    match bbox(t)
    case Some(b) => At(b.min, axis)
    case None => 0.0
  }

  datatype Ordering = Less | Equal | Greater

  /** `box_x_compare`, `box_y_compare`, `box_z_compare`: order two primitives
      by the minimum corner of their boxes on one axis; panic if either has
      no box. */
  function BoxCompare<T(==)>(a: T, b: T, axis: Axis, bbox: T -> Option<Aabb>): (r: Result<Ordering, BuildError>)
    ensures r.Success? <==> bbox(a).Some? && bbox(b).Some?
    ensures r.Success? ==> (r.value == Less <==> Key(bbox, axis, a) < Key(bbox, axis, b))
    ensures r.Success? ==> (r.value == Greater <==> Key(bbox, axis, a) > Key(bbox, axis, b))
  {
    match (bbox(a), bbox(b))
    case (Some(ba), Some(bb)) =>
      var ka := At(ba.min, axis);
      var kb := At(bb.min, axis);
      Success(if ka < kb then Less else if ka > kb then Greater else Equal)
    case _ => Failure(NoBoundingBox)
  }

  /** The sorted slice of a build call. */
  function SortOn<T(==)>(l: seq<T>, bbox: T -> Option<Aabb>, axis: Axis): (s: seq<T>)
    ensures multiset(s) == multiset(l) && |s| == |l|
    ensures Sorting.SortedBy(s, t => Key(bbox, axis, t))
  {
    Sorting.Sort(l, t => Key(bbox, axis, t))
  }

  lemma AllBoxedPermutation<T>(l: seq<T>, s: seq<T>, bbox: T -> Option<Aabb>)
    requires multiset(s) == multiset(l)
    requires AllBoxed(l, bbox)
    ensures AllBoxed(s, bbox)
  {
    forall i | 0 <= i < |s|
      ensures bbox(s[i]).Some?
    {
      assert s[i] in multiset(s);
      assert s[i] in l;
      var j :| 0 <= j < |l| && l[j] == s[i];
    }
  }

  /** What a successful build of `l` on top of the arena `nodes` yields. */
  predicate BuildPost<T(==)>(nodes: seq<Node<T>>, l: seq<T>, bbox: T -> Option<Aabb>, b: Built<T>) {
    && |l| >= 1
    && Extends(b.nodes, nodes, 2 * |l| - 1)
    && b.id == |b.nodes| - 1
    && Acyclic(b.nodes)
    && SegmentWellFormed(b.nodes, |nodes|, bbox)
    && multiset(Leaves(b.nodes, b.id)) == multiset(l)
    && LeafNodes(b.nodes[|nodes|..]) == |l|
    && (AllBoxed(l, bbox) ==> b.nodes[b.id].aabb.Some?)
  }

  lemma LeafPost<T>(nodes: seq<Node<T>>, t: T, bbox: T -> Option<Aabb>, draw: nat)
    requires Acyclic(nodes)
    ensures BuildPost(nodes, [t], bbox, Built(NewLeaf(nodes, t, bbox).nodes, NewLeaf(nodes, t, bbox).id, draw))
  {
    var a := NewLeaf(nodes, t, bbox);
    assert ChildrenBelow(a.nodes, a.id);
    forall i | 0 <= i < |a.nodes|
      ensures ChildrenBelow(a.nodes, i)
    {
      if i < |nodes| {
        assert a.nodes[i] == nodes[i];
        assert ChildrenBelow(nodes, i);
      }
    }
    assert IsLeaf(a.nodes, a.id, bbox);
    assert a.nodes[|nodes|..] == [a.nodes[a.id]];
    assert LeafNodes([a.nodes[a.id]]) == LeafNodes(a.nodes[|nodes|..][..0]) + 1;
  }

  /** Two subtrees built one after the other on top of `nodes`, and the
      internal node `c` that joins them. */
  predicate Joined<T(==)>(nodes: seq<Node<T>>, la: seq<T>, lb: seq<T>, bbox: T -> Option<Aabb>,
                          a: Built<T>, b: Built<T>, c: Alloc<T>)
  {
    && Acyclic(nodes)
    && BuildPost(nodes, la, bbox, a)
    && BuildPost(a.nodes, lb, bbox, b)
    && b.nodes[a.id].aabb.Some? && b.nodes[b.id].aabb.Some?
    && c == NewNode(b.nodes, SurroundingBox(b.nodes[a.id].aabb.value, b.nodes[b.id].aabb.value), Some(a.id), Some(b.id))
  }

  lemma JoinedExtends<T>(nodes: seq<Node<T>>, la: seq<T>, lb: seq<T>, bbox: T -> Option<Aabb>,
                         a: Built<T>, b: Built<T>, c: Alloc<T>)
    requires Joined(nodes, la, lb, bbox, a, b, c)
    ensures Extends(c.nodes, nodes, 2 * |la + lb| - 1)
    ensures c.nodes[..|b.nodes|] == b.nodes && c.nodes[..|a.nodes|] == a.nodes
    ensures c.id == |c.nodes| - 1
  {
    assert b.nodes[..|a.nodes|] == a.nodes;
    assert c.nodes[..|a.nodes|] == c.nodes[..|b.nodes|][..|a.nodes|];
    assert c.nodes[..|nodes|] == c.nodes[..|a.nodes|][..|nodes|];
  }

  lemma JoinedAcyclic<T>(nodes: seq<Node<T>>, la: seq<T>, lb: seq<T>, bbox: T -> Option<Aabb>,
                         a: Built<T>, b: Built<T>, c: Alloc<T>)
    requires Joined(nodes, la, lb, bbox, a, b, c)
    ensures Acyclic(c.nodes)
  {
    forall i | 0 <= i < |c.nodes|
      ensures ChildrenBelow(c.nodes, i)
    {
      if i < |b.nodes| {
        assert c.nodes[i] == b.nodes[i];
        assert ChildrenBelow(b.nodes, i);
      }
    }
  }

  lemma JoinedSegment<T>(nodes: seq<Node<T>>, la: seq<T>, lb: seq<T>, bbox: T -> Option<Aabb>,
                         a: Built<T>, b: Built<T>, c: Alloc<T>)
    requires Joined(nodes, la, lb, bbox, a, b, c)
    ensures SegmentWellFormed(c.nodes, |nodes|, bbox)
  {
    JoinedExtends(nodes, la, lb, bbox, a, b, c);
    forall i | |nodes| <= i < |c.nodes|
      ensures WellFormedAt(c.nodes, i, bbox) && ChildrenFrom(c.nodes, i, |nodes|)
    {
      if i < |a.nodes| {
        WellFormedAtFrame(a.nodes, c.nodes, i, |nodes|, bbox);
      } else if i < |b.nodes| {
        WellFormedAtFrame(b.nodes, c.nodes, i, |a.nodes|, bbox);
      } else {
        assert c.nodes[a.id] == b.nodes[a.id] && c.nodes[b.id] == b.nodes[b.id];
        assert IsInternal(c.nodes, i);
      }
    }
  }

  lemma JoinedLeaves<T>(nodes: seq<Node<T>>, la: seq<T>, lb: seq<T>, bbox: T -> Option<Aabb>,
                        a: Built<T>, b: Built<T>, c: Alloc<T>)
    requires Joined(nodes, la, lb, bbox, a, b, c)
    requires Acyclic(c.nodes)
    ensures multiset(Leaves(c.nodes, c.id)) == multiset(la + lb)
  {
    JoinedExtends(nodes, la, lb, bbox, a, b, c);
    var left := Leaves(a.nodes, a.id);
    var right := Leaves(b.nodes, b.id);
    LeavesFrame(a.nodes, c.nodes, a.id);
    LeavesFrame(b.nodes, c.nodes, b.id);
    LeavesOfInternal(c.nodes, c.id);
    calc {
      multiset(left + right);
      multiset(left) + multiset(right);
      multiset(la) + multiset(lb);
      multiset(la + lb);
    }
  }

  lemma JoinedLeafNodes<T>(nodes: seq<Node<T>>, la: seq<T>, lb: seq<T>, bbox: T -> Option<Aabb>,
                           a: Built<T>, b: Built<T>, c: Alloc<T>)
    requires Joined(nodes, la, lb, bbox, a, b, c)
    ensures LeafNodes(c.nodes[|nodes|..]) == |la + lb|
  {
    JoinedExtends(nodes, la, lb, bbox, a, b, c);
    LeafNodesOfJoin(|nodes|, a.nodes, b.nodes, c.nodes);
  }

  /** Leaf nodes of an arena grown by two runs and one internal node: those
      of the two runs. */
  lemma LeafNodesOfJoin<T>(base: nat, an: seq<Node<T>>, bn: seq<Node<T>>, cn: seq<Node<T>>)
    requires base <= |an| <= |bn| && |cn| == |bn| + 1
    requires bn[..|an|] == an && cn[..|bn|] == bn
    requires cn[|bn|].obj.None?
    ensures LeafNodes(cn[base..]) == LeafNodes(an[base..]) + LeafNodes(bn[|an|..])
  {
    var sa := an[base..];
    var sb := bn[|an|..];
    var last := [cn[|bn|]];
    assert cn[base..] == sa + sb + last;
    LeafNodesAppend(sa + sb, last);
    LeafNodesAppend(sa, sb);
    assert LeafNodes(last) == LeafNodes(last[..0]) + 0;
  }

  /** Wrapping two freshly built subtrees in an internal node keeps the
      build's promises: the arena grows by one more node, the new node is
      internal, and its leaves are the two subtrees' leaves. */
  lemma JoinedPost<T>(nodes: seq<Node<T>>, la: seq<T>, lb: seq<T>, bbox: T -> Option<Aabb>,
                      a: Built<T>, b: Built<T>, c: Alloc<T>, draw: nat)
    requires Joined(nodes, la, lb, bbox, a, b, c)
    ensures BuildPost(nodes, la + lb, bbox, Built(c.nodes, c.id, draw))
  {
    JoinedExtends(nodes, la, lb, bbox, a, b, c);
    JoinedAcyclic(nodes, la, lb, bbox, a, b, c);
    JoinedSegment(nodes, la, lb, bbox, a, b, c);
    JoinedLeaves(nodes, la, lb, bbox, a, b, c);
    JoinedLeafNodes(nodes, la, lb, bbox, a, b, c);
  }

  /** `build`. The slice must not be empty: on an empty slice the source
      recurses on two empty halves without end. With two or more primitives
      the sort compares every one of them, so one without a box panics; a
      single primitive becomes a leaf whatever its box. */
  function Build<T(==)>(nodes: seq<Node<T>>, l: seq<T>, bbox: T -> Option<Aabb>, axes: nat -> Axis, draw: nat)
    : (r: Result<Built<T>, BuildError>)
    requires |l| >= 1
    requires Acyclic(nodes)
    decreases |l|, 2
    ensures r.Success? <==> |l| == 1 || AllBoxed(l, bbox)
    ensures r.Success? ==> BuildPost(nodes, l, bbox, r.value)
  {
    var axis := axes(draw);
    if |l| >= 2 && !AllBoxed(l, bbox) then Failure(NoBoundingBox)
    else
      var sorted := SortOn(l, bbox, axis);
      SortedKeepsBoxes(l, sorted, bbox);
      var b := BuildSorted(nodes, sorted, bbox, axes, draw + 1);
      BuildPostPermutation(nodes, sorted, l, bbox, b);
      Success(b)
  }

  /** The build of an already sorted slice: a leaf for one primitive,
      otherwise an internal node over the builds of the two halves. */
  function BuildSorted<T(==)>(nodes: seq<Node<T>>, sorted: seq<T>, bbox: T -> Option<Aabb>, axes: nat -> Axis, draw: nat)
    : (b: Built<T>)
    requires |sorted| == 1 || (|sorted| >= 2 && AllBoxed(sorted, bbox))
    requires Acyclic(nodes)
    decreases |sorted|, 1
    ensures BuildPost(nodes, sorted, bbox, b)
  {
    if |sorted| == 1 then
      var leaf := NewLeaf(nodes, sorted[0], bbox);
      assert sorted == [sorted[0]];
      LeafPost(nodes, sorted[0], bbox, draw);
      Built(leaf.nodes, leaf.id, draw)
    else
      var half := if |sorted| == 2 then 1 else |sorted| / 2;
      assert sorted == sorted[..half] + sorted[half..];
      var kids := BuildHalves(nodes, sorted, half, bbox, axes, draw);
      var a := kids.0;
      var b := kids.1;
      var box := SurroundingBox(b.nodes[a.id].aabb.value, b.nodes[b.id].aabb.value);
      var c := NewNode(b.nodes, box, Some(a.id), Some(b.id));
      JoinedPost(nodes, sorted[..half], sorted[half..], bbox, a, b, c, b.draw);
      Built(c.nodes, c.id, b.draw)
  }

  /** A slice that may be built is still one after sorting. */
  lemma SortedKeepsBoxes<T>(l: seq<T>, sorted: seq<T>, bbox: T -> Option<Aabb>)
    requires multiset(sorted) == multiset(l) && |sorted| == |l| >= 1
    requires |l| == 1 || AllBoxed(l, bbox)
    ensures |sorted| == 1 || (|sorted| >= 2 && AllBoxed(sorted, bbox))
  {
    if |l| != 1 {
      AllBoxedPermutation(l, sorted, bbox);
    }
  }

  /** A build of the sorted slice is a build of the slice it was sorted from. */
  lemma BuildPostPermutation<T>(nodes: seq<Node<T>>, sorted: seq<T>, l: seq<T>, bbox: T -> Option<Aabb>, b: Built<T>)
    requires multiset(sorted) == multiset(l) && |sorted| == |l|
    requires BuildPost(nodes, sorted, bbox, b)
    ensures BuildPost(nodes, l, bbox, b)
  {
    if AllBoxed(l, bbox) {
      AllBoxedPermutation(l, sorted, bbox);
    }
  }

  /** The two subtrees of a build of `sorted` split at `half`: two leaves for a
      slice of two, two recursive builds otherwise (the left one first). */
  function BuildHalves<T(==)>(nodes: seq<Node<T>>, sorted: seq<T>, half: nat, bbox: T -> Option<Aabb>,
                          axes: nat -> Axis, draw: nat): (r: (Built<T>, Built<T>))
    requires |sorted| >= 2 && AllBoxed(sorted, bbox)
    requires half == (if |sorted| == 2 then 1 else |sorted| / 2)
    requires Acyclic(nodes)
    decreases |sorted|, 0
    ensures BuildPost(nodes, sorted[..half], bbox, r.0)
    ensures BuildPost(r.0.nodes, sorted[half..], bbox, r.1)
    ensures r.1.nodes[r.0.id].aabb.Some? && r.1.nodes[r.1.id].aabb.Some?
  {
    assert AllBoxed(sorted[..half], bbox) && AllBoxed(sorted[half..], bbox);
    if |sorted| == 2 then
      var a := NewLeaf(nodes, sorted[0], bbox);
      var b := NewLeaf(a.nodes, sorted[1], bbox);
      assert sorted[..half] == [sorted[0]] && sorted[half..] == [sorted[1]];
      LeafPost(nodes, sorted[0], bbox, draw);
      LeafPost(a.nodes, sorted[1], bbox, draw);
      assert b.nodes[a.id] == a.nodes[a.id];
      (Built(a.nodes, a.id, draw), Built(b.nodes, b.id, draw))
    else
      var left := Build(nodes, sorted[..half], bbox, axes, draw);
      var right := Build(left.value.nodes, sorted[half..], bbox, axes, left.value.draw);
      var a := left.value;
      var b := right.value;
      assert b.nodes[..|a.nodes|] == a.nodes;
      assert b.nodes[a.id] == a.nodes[a.id];
      (a, b)
  }

  /** `BvhTree::new`: build over an empty arena; the root is the build's
      result. On success the tree has `2n - 1` nodes, every node is a leaf or
      an internal node, the root is the last node, and the leaves hold the
      input primitives, each as often as in the input. */
  function New<T(==)>(l: seq<T>, bbox: T -> Option<Aabb>, axes: nat -> Axis): (r: Result<Tree<T>, BuildError>)
    requires |l| >= 1
    ensures r.Success? <==> |l| == 1 || AllBoxed(l, bbox)
    ensures r.Success? ==> |r.value.nodes| == 2 * |l| - 1 && r.value.root == |r.value.nodes| - 1
    ensures r.Success? ==> WellFormed(r.value.nodes, bbox) && Acyclic(r.value.nodes)
    ensures r.Success? ==> multiset(Leaves(r.value.nodes, r.value.root)) == multiset(l)
    ensures r.Success? ==> NumberHittables(r.value.nodes, r.value.root) == |l|
    ensures r.Success? ==> LeafNodes(r.value.nodes) == |l|
  {
    match Build([], l, bbox, axes, 0)
    case Failure(e) => Failure(e)
    case Success(b) =>
      BuiltTree(l, bbox, b);
      Success(Tree(b.nodes, b.id))
  }

  /** A build over an empty arena is a whole tree. */
  lemma BuiltTree<T>(l: seq<T>, bbox: T -> Option<Aabb>, b: Built<T>)
    requires BuildPost([], l, bbox, b)
    ensures |b.nodes| == 2 * |l| - 1 && b.id == |b.nodes| - 1
    ensures WellFormed(b.nodes, bbox) && Acyclic(b.nodes)
    ensures multiset(Leaves(b.nodes, b.id)) == multiset(l)
    ensures NumberHittables(b.nodes, b.id) == |l|
    ensures LeafNodes(b.nodes) == |l|
  {
    assert b.nodes[0..] == b.nodes;
    NumberHittablesCountsLeaves(b.nodes, b.id);
    assert |multiset(Leaves(b.nodes, b.id))| == |Leaves(b.nodes, b.id)|;
  }

  /** `BvhTree::bounding_box`: the root's box. */
  function BoundingBox<T(==)>(tree: Tree<T>): (r: Option<Aabb>)
    requires tree.root < |tree.nodes|
    ensures r == tree.nodes[tree.root].aabb
  {
    tree.nodes[tree.root].aabb
  }

  /** In a well-formed arena, a node's box encloses the box of every primitive
      below it. */
  lemma {:induction false} BoxContainsLeaves<T>(nodes: seq<Node<T>>, id: NodeId, bbox: T -> Option<Aabb>)
    requires WellFormed(nodes, bbox) && Acyclic(nodes)
    requires id < |nodes| && nodes[id].aabb.Some?
    ensures forall t | t in Leaves(nodes, id) :: bbox(t).Some? && Contains(nodes[id].aabb.value, bbox(t).value)
    decreases id
  {
    assert WellFormedAt(nodes, id, bbox);
    var n := nodes[id];
    if IsLeaf(nodes, id, bbox) {
      assert Leaves(nodes, id) == [n.obj.value];
    } else {
      var a := n.left.value;
      var b := n.right.value;
      LeavesOfInternal(nodes, id);
      BoxContainsLeaves(nodes, a, bbox);
      BoxContainsLeaves(nodes, b, bbox);
      forall t | t in Leaves(nodes, id)
        ensures bbox(t).Some? && Contains(n.aabb.value, bbox(t).value)
      {
        if t in Leaves(nodes, a) {
          ContainsTransitive(n.aabb.value, nodes[a].aabb.value, bbox(t).value);
        } else {
          ContainsTransitive(n.aabb.value, nodes[b].aabb.value, bbox(t).value);
        }
      }
    }
  }

  /** The tree's bounding box encloses the box of every primitive in it. */
  lemma BoundingBoxContainsLeaves<T>(tree: Tree<T>, bbox: T -> Option<Aabb>)
    requires WellFormed(tree.nodes, bbox) && Acyclic(tree.nodes)
    requires tree.root < |tree.nodes| && BoundingBox(tree).Some?
    ensures forall t | t in Leaves(tree.nodes, tree.root) ::
              bbox(t).Some? && Contains(BoundingBox(tree).value, bbox(t).value)
  {
    BoxContainsLeaves(tree.nodes, tree.root, bbox);
  }
}
