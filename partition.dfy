/**
 * The output of the radial partition layout, as a sequence of nodes in the
 * layout's breadth-first order (root first), each with its depth, the index of
 * its parent and its extent; and the walk up parent links that picks the
 * colour category of an arc.
 */
module Partition {
  import opened Wrappers
  import opened Geometry

  /** One laid-out node: its depth, its parent's index (None for the root) and its extent. */
  datatype Node = Node(depth: nat, parent: Option<nat>, extent: Extent)

  /** Node i (not the root) hangs below an earlier node one level up, inside that node's angular span. */
  predicate NestedInParent(tree: seq<Node>, i: nat)
    requires 0 < i < |tree|
  {
    match tree[i].parent
    case None => false
    case Some(j) =>
      j < i && tree[i].depth == tree[j].depth + 1 &&
      tree[j].extent.x0 <= tree[i].extent.x0 <= tree[i].extent.x1 <= tree[j].extent.x1
  }

  /**
   * What the partition layout guarantees of its output, taken as given: the
   * root comes first, spans the full turn at depth 0 and has no parent; every
   * node's inner radius is its depth and does not exceed its outer radius;
   * every other node is nested in its parent.
   */
  predicate WellFormed(tree: seq<Node>)
  {
    |tree| > 0 &&
    tree[0].parent == None && tree[0].depth == 0 &&
    tree[0].extent.x0 == 0.0 && tree[0].extent.x1 == TwoPi &&
    (forall i :: 0 <= i < |tree| ==>
       tree[i].extent.y0 == tree[i].depth as real && tree[i].extent.y0 <= tree[i].extent.y1) &&
    (forall i :: 0 < i < |tree| ==> NestedInParent(tree, i))
  }

  /** a is i itself or is reached from i by following parent links. */
  ghost predicate IsAncestorOrSelf(tree: seq<Node>, a: nat, i: nat)
    requires i < |tree|
    decreases i
  {
    a == i ||
    match tree[i].parent
    case None => false
    case Some(j) => j < i && IsAncestorOrSelf(tree, a, j)
  }

  /** The ancestor (or self) of node i at depth dep, found by climbing parent links. */
  function AncestorAtDepth(tree: seq<Node>, i: nat, dep: nat): (a: nat)
    requires WellFormed(tree) && i < |tree| && dep <= tree[i].depth
    ensures a < |tree| && tree[a].depth == dep && IsAncestorOrSelf(tree, a, i)
    decreases i
  {
    if tree[i].depth == dep then i
    else
      assert i > 0 && NestedInParent(tree, i);
      AncestorAtDepth(tree, tree[i].parent.value, dep)
  }

  /** An ancestor is never deeper than its descendant. */
  lemma {:induction false} AncestorIsShallower(tree: seq<Node>, a: nat, i: nat)
    requires WellFormed(tree) && i < |tree| && IsAncestorOrSelf(tree, a, i)
    ensures a < |tree| && tree[a].depth <= tree[i].depth
    ensures a != i ==> tree[a].depth < tree[i].depth
    decreases i
  {
    if a != i {
      var j := tree[i].parent.value;
      assert NestedInParent(tree, i);
      AncestorIsShallower(tree, a, j);
    }
  }

  /** Each node has exactly one ancestor (or self) at each depth up to its own. */
  lemma {:induction false} AncestorAtDepthUnique(tree: seq<Node>, a: nat, i: nat)
    requires WellFormed(tree) && i < |tree| && IsAncestorOrSelf(tree, a, i)
    ensures a < |tree| && tree[a].depth <= tree[i].depth
    ensures a == AncestorAtDepth(tree, i, tree[a].depth)
    decreases i
  {
    AncestorIsShallower(tree, a, i);
    if a != i {
      var j := tree[i].parent.value;
      assert NestedInParent(tree, i);
      AncestorAtDepthUnique(tree, a, j);
    }
  }

  /** Every node lies within the full turn and outside the centre: 0 <= x0 <= x1 <= 2*Pi, 0 <= y0 <= y1. */
  lemma {:induction false} WithinFullCircle(tree: seq<Node>, i: nat)
    requires WellFormed(tree) && i < |tree|
    ensures 0.0 <= tree[i].extent.x0 <= tree[i].extent.x1 <= TwoPi
    ensures 0.0 <= tree[i].extent.y0 <= tree[i].extent.y1
    decreases i
  {
    if i > 0 {
      assert NestedInParent(tree, i);
      WithinFullCircle(tree, tree[i].parent.value);
    }
  }

  /**
   * The colour category of node i: climb parent links while the node is deeper
   * than the first ring. Ends at i's unique depth-1 ancestor, or at i itself
   * when i is the root.
   */
  method TopLevelAncestor(tree: seq<Node>, i: nat) returns (k: nat)
    requires WellFormed(tree) && i < |tree|
    ensures k < |tree| && tree[k].depth <= 1 && IsAncestorOrSelf(tree, k, i)
    ensures tree[i].depth >= 1 ==> tree[k].depth == 1 && k == AncestorAtDepth(tree, i, 1)
    ensures tree[i].depth == 0 ==> k == i
  {
    k := i;
    while tree[k].depth > 1
      invariant k < |tree| && IsAncestorOrSelf(tree, k, i)
      invariant tree[i].depth >= 1 ==> tree[k].depth >= 1
      invariant tree[i].depth == 0 ==> k == i
      decreases tree[k].depth
    {
      assert NestedInParent(tree, k);
      AncestorStep(tree, k, i);
      k := tree[k].parent.value;
    }
    if tree[i].depth >= 1 {
      AncestorAtDepthUnique(tree, k, i);
    }
  }

  /** The parent of an ancestor of i is again an ancestor of i. */
  lemma {:induction false} AncestorStep(tree: seq<Node>, a: nat, i: nat)
    requires i < |tree| && a < |tree| && IsAncestorOrSelf(tree, a, i)
    requires tree[a].parent.Some? && tree[a].parent.value < a
    ensures IsAncestorOrSelf(tree, tree[a].parent.value, i)
    decreases i
  {
    if a != i {
      AncestorStep(tree, a, tree[i].parent.value);
    }
  }
}
