/**
 * The zoom state of one rendered chart: the laid-out nodes, the extent each
 * node is currently drawn at and the extent it is animated toward, the node
 * the centre circle leads back to (its datum) and the node whose name the
 * centre label shows.
 */
module Zoom {
  import opened Wrappers
  import opened Geometry
  import opened Partition

  /** Where the centre circle leads after a zoom to p: p's parent, or the root when p has none. */
  function PivotAfter(tree: seq<Node>, p: nat): (q: nat)
    requires WellFormed(tree) && p < |tree|
    ensures q < |tree|
    ensures p == 0 ==> q == 0
    ensures p > 0 ==> q < p && tree[q].depth + 1 == tree[p].depth && IsAncestorOrSelf(tree, q, p)
  {
    match tree[p].parent
    case Some(j) =>
      assert p > 0 && NestedInParent(tree, p);
      j
    case None =>
      assert p == 0 by {
        assert p > 0 ==> NestedInParent(tree, p);
      }
      0
  }

  /** The centre circle always leads to a node whose span has positive width. */
  lemma PivotKeepsPositiveWidth(tree: seq<Node>, p: nat)
    requires WellFormed(tree) && p < |tree| && tree[p].extent.x0 < tree[p].extent.x1
    ensures tree[PivotAfter(tree, p)].extent.x0 < tree[PivotAfter(tree, p)].extent.x1
  {
    if p > 0 {
      assert NestedInParent(tree, p);
    }
  }

  class Chart {
    /** The partition layout's output, root first. */
    const tree: seq<Node>
    /** current[i]: the extent node i is drawn at. */
    const current: array<Extent>
    /** target[i]: the extent node i is animated toward by the last zoom. */
    const target: array<Extent>
    /** The node the centre circle leads to when clicked. */
    var pivot: nat
    /** The node whose name the centre label shows. */
    var focus: nat

    /**
     * The layout is well formed, the arrays have one slot per node, the centre
     * circle leads to the parent of the focused node (the root at the root
     * view), and every node is drawn at its laid-out extent (the animation
     * that would move current toward target is not modelled).
     */
    ghost predicate Valid()
      reads this, current
    {
      WellFormed(tree) &&
      current.Length == |tree| && target.Length == |tree| && current != target &&
      pivot < |tree| && focus < |tree| &&
      tree[pivot].extent.x0 < tree[pivot].extent.x1 &&
      pivot == PivotAfter(tree, focus) &&
      forall i :: 0 <= i < |tree| ==> current[i] == tree[i].extent
    }

    /**
     * The set-up of a render: every node starts drawn at its laid-out extent,
     * the centre circle leads to the root and the centre label names the root.
     * No target is set yet.
     */
    constructor (layout: seq<Node>)
      requires WellFormed(layout)
      ensures Valid() && fresh(current) && fresh(target)
      ensures tree == layout && pivot == 0 && focus == 0
      ensures forall i :: 0 <= i < |layout| ==> current[i] == layout[i].extent
    {
      var c := new Extent[|layout|];
      for i := 0 to |layout|
        invariant forall k :: 0 <= k < i ==> c[k] == layout[k].extent
      {
        c[i] := layout[i].extent;
      }
      tree := layout;
      current := c;
      target := new Extent[|layout|];
      pivot := 0;
      focus := 0;
    }

    /**
     * A click that zooms to node p: the centre circle is re-pointed at p's
     * parent (or the root), every node's target becomes its reprojection onto
     * p's span and depth, and the centre label names p. What is drawn now is
     * untouched; the animation toward the targets is not modelled.
     */
    method Clicked(p: nat)
      requires Valid() && p < |tree| && tree[p].extent.x0 < tree[p].extent.x1
      modifies this, target
      ensures Valid()
      ensures pivot == PivotAfter(tree, p) && focus == p
      ensures forall i :: 0 <= i < |tree| ==>
                target[i] == Target(tree[i].extent, tree[p].extent, tree[p].depth)
      ensures unchanged(current)
    {
      PivotKeepsPositiveWidth(tree, p);
      pivot := PivotAfter(tree, p);
      var span, depth := tree[p].extent, tree[p].depth;
      for i := 0 to target.Length
        modifies target
        invariant forall k :: 0 <= k < i ==> target[k] == Target(tree[k].extent, span, depth)
      {
        target[i] := Target(tree[i].extent, span, depth);
      }
      focus := p;
    }

    /**
     * A click on the centre circle: a zoom to its datum. At the root view
     * (focus on the root) this changes nothing: focus and pivot stay on the
     * root and every target is where the node is already drawn.
     */
    method ClickCentre()
      requires Valid()
      modifies this, target
      ensures Valid()
      ensures focus == old(pivot) && pivot == PivotAfter(tree, old(pivot))
      ensures forall i :: 0 <= i < |tree| ==>
                target[i] == Target(tree[i].extent, tree[old(pivot)].extent, tree[old(pivot)].depth)
      ensures old(pivot) == 0 ==> pivot == 0 && forall i :: 0 <= i < |tree| ==> target[i] == tree[i].extent
      ensures old(focus) == 0 ==>
                focus == old(focus) && pivot == old(pivot) &&
                forall i :: 0 <= i < |tree| ==> target[i] == current[i]
      ensures unchanged(current)
    {
      var p := pivot;
      Clicked(p);
      if p == 0 {
        forall i | 0 <= i < |tree|
          ensures target[i] == tree[i].extent
        {
          ZoomToRootKeepsLayout(tree, i);
        }
      }
    }
  }

  /** Zooming to the root of a laid-out tree reprojects every node onto itself. */
  lemma ZoomToRootKeepsLayout(tree: seq<Node>, i: nat)
    requires WellFormed(tree) && i < |tree|
    ensures Target(tree[i].extent, tree[0].extent, tree[0].depth) == tree[i].extent
  {
    WithinFullCircle(tree, i);
    ZoomToRootIsIdentity(tree[i].extent, tree[0].extent);
  }

  /** A descendant lies within its ancestor's angular span. */
  lemma {:induction false} DescendantWithinSpan(tree: seq<Node>, a: nat, i: nat)
    requires WellFormed(tree) && i < |tree| && IsAncestorOrSelf(tree, a, i)
    ensures a < |tree|
    ensures tree[a].extent.x0 <= tree[i].extent.x0 <= tree[i].extent.x1 <= tree[a].extent.x1
    decreases i
  {
    if a != i {
      assert i > 0 && NestedInParent(tree, i);
      DescendantWithinSpan(tree, a, tree[i].parent.value);
    } else {
      WithinFullCircle(tree, i);
    }
  }

  /**
   * After a zoom to node p, p itself becomes the centre disc spanning the full
   * turn, and a descendant of p is drawn exactly when it has a non-empty span
   * and its outer ring lies within displayDepth rings of p.
   */
  lemma ZoomShowsDescendants(tree: seq<Node>, p: nat, i: nat, displayDepth: real)
    requires WellFormed(tree) && p < |tree| && i < |tree|
    requires tree[p].extent.x0 < tree[p].extent.x1
    requires IsAncestorOrSelf(tree, p, i)
    ensures Target(tree[p].extent, tree[p].extent, tree[p].depth) == Extent(0.0, TwoPi, 0.0, tree[p].extent.y1 - tree[p].depth as real)
    ensures ArcVisible(Target(tree[i].extent, tree[p].extent, tree[p].depth), displayDepth) <==>
              i != p && tree[i].extent.x0 < tree[i].extent.x1 &&
              tree[i].extent.y1 <= tree[p].depth as real + displayDepth
  {
    var d, e := tree[i].extent, tree[p].extent;
    ZoomedNodeFillsCircle(e, tree[p].depth, displayDepth);
    DescendantWithinSpan(tree, p, i);
    AncestorIsShallower(tree, p, i);
    ArcVisibleAfterZoom(d, e, tree[p].depth, displayDepth);
    if d.x0 < d.x1 {
      assert d.x0 < e.x1 && e.x0 < d.x1;
    }
  }
}
