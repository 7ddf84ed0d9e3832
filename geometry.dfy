/**
 * Extents of the sunburst's partition nodes, the two visibility predicates the
 * widget applies to them, and the reprojection that a zoom click computes for
 * every node. Angles are radians in [0, 2*Pi]; radii are measured in rings, one
 * ring per tree level. All arithmetic is over the reals.
 */
module Geometry {

  /** Math.PI, written as the decimal literal of the double; proofs use only that it is positive. */
  const Pi: real := 3.141592653589793

  /** One full turn. */
  const TwoPi: real := 2.0 * Pi

  /** A label is drawn only when angular width times radial width exceeds this. */
  const MinLabelArea: real := 0.03

  /** The angular band [x0, x1] and the radial band [y0, y1] of one node. */
  datatype Extent = Extent(x0: real, x1: real, y0: real, y1: real)

  /**
   * An arc is drawn when it lies within the displayed rings, is not the centre
   * disc (ring 0) and has a non-empty angular band.
   */
  predicate ArcVisible(d: Extent, displayDepth: real)
  {
    d.y1 <= displayDepth && d.y0 >= 1.0 && d.x1 > d.x0
  }

  /** A label is drawn under the same ring conditions when its arc is not too small. */
  predicate LabelVisible(d: Extent, displayDepth: real)
  {
    d.y1 <= displayDepth && d.y0 >= 1.0 && (d.y1 - d.y0) * (d.x1 - d.x0) > MinLabelArea
  }

  /** The centre disc and every arc of zero or negative angular width are never drawn. */
  lemma NeverVisible(d: Extent, displayDepth: real)
    requires d.y0 < 1.0 || d.x1 <= d.x0
    ensures !ArcVisible(d, displayDepth)
    ensures d.y0 < 1.0 ==> !LabelVisible(d, displayDepth)
  {
  }

  /** For a well-ordered radial band, a visible label always sits on a visible arc. */
  lemma LabelVisibleImpliesArcVisible(d: Extent, displayDepth: real)
    requires d.y0 <= d.y1
    requires LabelVisible(d, displayDepth)
    ensures ArcVisible(d, displayDepth)
  {
  }

  /** Math.max(0, Math.min(1, r)). */
  function Clamp01(r: real): (c: real)
    ensures 0.0 <= c <= 1.0
    ensures 0.0 <= r <= 1.0 ==> c == r
    ensures r <= 0.0 ==> c == 0.0
    ensures r >= 1.0 ==> c == 1.0
  {
    var m := if 1.0 < r then 1.0 else r;
    if 0.0 > m then 0.0 else m
  }

  /** Math.max(0, v). */
  function Floor0(v: real): (r: real)
    ensures r >= 0.0
    ensures v >= 0.0 ==> r == v
    ensures v <= 0.0 ==> r == 0.0
  {
    if 0.0 > v then 0.0 else v
  }

  // Real arithmetic. Each lemma below states one nonlinear fact, so that the
  // proofs about the reprojection need only linear reasoning on top of them.

  /** Multiplying by a positive factor keeps the sign. */
  lemma MulSign(x: real, k: real)
    requires k > 0.0
    ensures (x * k < 0.0) == (x < 0.0)
    ensures (x * k == 0.0) == (x == 0.0)
    ensures (x * k > 0.0) == (x > 0.0)
  {
  }

  /** Division by a positive width is undone by multiplying back. */
  lemma DivCancel(x: real, w: real)
    requires w > 0.0
    ensures x / w * w == x
  {
  }

  /** Division by a positive width distributes over subtraction. */
  lemma DivSub(x: real, y: real, w: real)
    requires w > 0.0
    ensures x / w - y / w == (x - y) / w
  {
    DivCancel(x, w);
    DivCancel(y, w);
    DivCancel(x - y, w);
    var e := x / w - y / w - (x - y) / w;
    assert e * w == x / w * w - y / w * w - (x - y) / w * w;
    MulSign(e, w);
  }

  /** Division by a positive width keeps the sign. */
  lemma DivSign(x: real, w: real)
    requires w > 0.0
    ensures (x / w < 0.0) == (x < 0.0)
    ensures (x / w == 0.0) == (x == 0.0)
    ensures (x / w > 0.0) == (x > 0.0)
  {
    DivCancel(x, w);
    MulSign(x / w, w);
  }

  /** A positive width divided by itself is 1. */
  lemma DivSelf(w: real)
    requires w > 0.0
    ensures w / w == 1.0
  {
    DivCancel(w, w);
    var e := w / w - 1.0;
    assert e * w == w / w * w - w;
    MulSign(e, w);
  }

  /** Division by a positive width keeps the order. */
  lemma DivOrder(x: real, y: real, w: real)
    requires w > 0.0
    ensures (x / w < y / w) == (x < y)
    ensures (x / w <= y / w) == (x <= y)
  {
    DivSub(y, x, w);
    DivSign(y - x, w);
  }

  /** A fraction of a full turn: c * 2 * Math.PI. */
  function Turn(c: real): real
  {
    c * 2.0 * Pi
  }

  /** Turn is the linear map c |-> c * TwoPi, so it keeps the order and the differences. */
  lemma TurnFacts(c1: real, c2: real)
    ensures Turn(c1) == c1 * TwoPi && Turn(c2) == c2 * TwoPi
    ensures Turn(0.0) == 0.0 && Turn(1.0) == TwoPi
    ensures Turn(c2) - Turn(c1) == Turn(c2 - c1)
    ensures (Turn(c1) < Turn(c2)) == (c1 < c2)
    ensures (Turn(c1) <= Turn(c2)) == (c1 <= c2)
  {
    MulSign(c2 - c1, TwoPi);
  }

  /** The position of angle a relative to the span [lo, hi]: 0 at lo, 1 at hi. */
  function Ratio(a: real, lo: real, hi: real): real
    requires lo < hi
  {
    (a - lo) / (hi - lo)
  }

  /** Where an angle lies relative to [lo, hi] is decided by its ratio. */
  lemma RatioFacts(a: real, lo: real, hi: real)
    requires lo < hi
    ensures (Ratio(a, lo, hi) < 0.0) == (a < lo)
    ensures (Ratio(a, lo, hi) <= 0.0) == (a <= lo)
    ensures (Ratio(a, lo, hi) < 1.0) == (a < hi)
    ensures (Ratio(a, lo, hi) <= 1.0) == (a <= hi)
  {
    var w := hi - lo;
    DivSign(a - lo, w);
    DivSelf(w);
    DivOrder(a - lo, w, w);
  }

  /** The ratio keeps the order of two angles, and its differences are differences over the width. */
  lemma RatioMonotone(a: real, b: real, lo: real, hi: real)
    requires lo < hi
    ensures (Ratio(a, lo, hi) <= Ratio(b, lo, hi)) == (a <= b)
    ensures (Ratio(a, lo, hi) < Ratio(b, lo, hi)) == (a < b)
    ensures Ratio(b, lo, hi) - Ratio(a, lo, hi) == (b - a) / (hi - lo)
  {
    var w := hi - lo;
    DivOrder(a - lo, b - lo, w);
    DivSub(b - lo, a - lo, w);
    assert (b - lo) - (a - lo) == b - a;
  }

  /**
   * One angular end after a zoom to the span [lo, hi]: its position relative to
   * the span, clamped to [0, 1] and scaled to a full turn.
   */
  function Rescale(a: real, lo: real, hi: real): (r: real)
    requires lo < hi
    ensures 0.0 <= r <= TwoPi
    ensures a <= lo ==> r == 0.0
    ensures a >= hi ==> r == TwoPi
  {
    RatioFacts(a, lo, hi);
    TurnFacts(0.0, Clamp01(Ratio(a, lo, hi)));
    TurnFacts(Clamp01(Ratio(a, lo, hi)), 1.0);
    Turn(Clamp01(Ratio(a, lo, hi)))
  }

  /** Rescale is monotone in the angle. */
  lemma RescaleMonotone(a: real, b: real, lo: real, hi: real)
    requires lo < hi && a <= b
    ensures Rescale(a, lo, hi) <= Rescale(b, lo, hi)
  {
    RatioMonotone(a, b, lo, hi);
    TurnFacts(Clamp01(Ratio(a, lo, hi)), Clamp01(Ratio(b, lo, hi)));
  }

  /** Inside the span, Rescale is the linear map sending lo to 0 and hi to a full turn. */
  lemma RescaleInsideSpan(a: real, lo: real, hi: real)
    requires lo <= a <= hi && lo < hi
    ensures Rescale(a, lo, hi) == (a - lo) / (hi - lo) * TwoPi
  {
    var q := Ratio(a, lo, hi);
    RatioFacts(a, lo, hi);
    assert Clamp01(q) == q;
    TurnFacts(q, q);
  }

  /**
   * The target extent a zoom to the node with extent p and depth pDepth gives a
   * node with extent d: angular ends renormalised to p's span, clamped and
   * scaled to a full turn; radial ends shifted in by pDepth and floored at 0.
   * Defined only for a span of positive width (otherwise the source divides by zero).
   */
  function Target(d: Extent, p: Extent, pDepth: nat): (t: Extent)
    requires p.x0 < p.x1
    ensures 0.0 <= t.x0 <= TwoPi && 0.0 <= t.x1 <= TwoPi
    ensures t.y0 >= 0.0 && t.y1 >= 0.0
  {
    Extent(Rescale(d.x0, p.x0, p.x1), Rescale(d.x1, p.x0, p.x1),
           Floor0(d.y0 - pDepth as real), Floor0(d.y1 - pDepth as real))
  }

  /**
   * The zoomed node fills the whole turn; when its inner radius equals its
   * depth (as the partition lays it out) it becomes the centre disc, which is
   * never drawn as an arc.
   */
  lemma ZoomedNodeFillsCircle(p: Extent, pDepth: nat, displayDepth: real)
    requires p.x0 < p.x1
    ensures Target(p, p, pDepth).x0 == 0.0 && Target(p, p, pDepth).x1 == TwoPi
    ensures p.y0 == pDepth as real ==> Target(p, p, pDepth).y0 == 0.0
    ensures p.y0 == pDepth as real ==> !ArcVisible(Target(p, p, pDepth), displayDepth)
  {
  }

  /** Reprojection keeps every well-ordered band well ordered. */
  lemma TargetMonotone(d: Extent, p: Extent, pDepth: nat)
    requires p.x0 < p.x1
    ensures d.x0 <= d.x1 ==> Target(d, p, pDepth).x0 <= Target(d, p, pDepth).x1
    ensures d.y0 <= d.y1 ==> Target(d, p, pDepth).y0 <= Target(d, p, pDepth).y1
  {
    if d.x0 <= d.x1 {
      RescaleMonotone(d.x0, d.x1, p.x0, p.x1);
    }
  }

  /** A node wholly outside the zoomed span collapses to zero width and is not drawn. */
  lemma OutsideSpanCollapses(d: Extent, p: Extent, pDepth: nat, displayDepth: real)
    requires p.x0 < p.x1 && d.x0 <= d.x1
    requires d.x1 <= p.x0 || p.x1 <= d.x0
    ensures Target(d, p, pDepth).x0 == Target(d, p, pDepth).x1
    ensures !ArcVisible(Target(d, p, pDepth), displayDepth)
    ensures !LabelVisible(Target(d, p, pDepth), displayDepth)
  {
  }

  /** Radial ends never go negative, and a node not inside the new centre keeps its ring width. */
  lemma RadialShift(d: Extent, p: Extent, pDepth: nat)
    requires p.x0 < p.x1
    requires d.y0 >= pDepth as real && d.y0 <= d.y1
    ensures Target(d, p, pDepth).y0 == d.y0 - pDepth as real
    ensures Target(d, p, pDepth).y1 - Target(d, p, pDepth).y0 == d.y1 - d.y0
  {
  }

  /**
   * A node inside the zoomed span is magnified by one common factor, a full
   * turn over the span's width; in particular it keeps a non-empty band.
   */
  lemma InsideSpanMagnified(d: Extent, p: Extent, pDepth: nat)
    requires p.x0 <= d.x0 <= d.x1 <= p.x1 && p.x0 < p.x1
    ensures Target(d, p, pDepth).x1 - Target(d, p, pDepth).x0 == (d.x1 - d.x0) / (p.x1 - p.x0) * TwoPi
    ensures d.x0 < d.x1 ==> Target(d, p, pDepth).x0 < Target(d, p, pDepth).x1
  {
    var qa, qb := Ratio(d.x0, p.x0, p.x1), Ratio(d.x1, p.x0, p.x1);
    var r := (d.x1 - d.x0) / (p.x1 - p.x0);
    RatioFacts(d.x0, p.x0, p.x1);
    RatioFacts(d.x1, p.x0, p.x1);
    RatioMonotone(d.x0, d.x1, p.x0, p.x1);
    assert Clamp01(qa) == qa && Clamp01(qb) == qb;
    TurnFacts(qa, qb);
    TurnFacts(r, r);
    assert qb - qa == r;
  }

  /**
   * Zooming to the root view (the full turn at depth 0) leaves every extent
   * that lies within the turn and outside the centre unchanged.
   */
  lemma ZoomToRootIsIdentity(d: Extent, root: Extent)
    requires root.x0 == 0.0 && root.x1 == TwoPi
    requires 0.0 <= d.x0 <= TwoPi && 0.0 <= d.x1 <= TwoPi
    requires d.y0 >= 0.0 && d.y1 >= 0.0
    ensures Target(d, root, 0) == d
  {
    RescaleInsideSpan(d.x0, 0.0, TwoPi);
    RescaleInsideSpan(d.x1, 0.0, TwoPi);
    DivCancel(d.x0 - 0.0, TwoPi - 0.0);
    DivCancel(d.x1 - 0.0, TwoPi - 0.0);
  }

  /**
   * After a zoom to p, a node with well-ordered bands is drawn exactly when its
   * rings lie between the first ring outside p and displayDepth rings further
   * out, and its angular band overlaps p's span with positive width.
   */
  lemma ArcVisibleAfterZoom(d: Extent, p: Extent, pDepth: nat, displayDepth: real)
    requires p.x0 < p.x1 && d.y0 <= d.y1
    ensures ArcVisible(Target(d, p, pDepth), displayDepth) <==>
              d.y0 >= pDepth as real + 1.0 && d.y1 <= pDepth as real + displayDepth &&
              d.x0 < d.x1 && d.x0 < p.x1 && p.x0 < d.x1
  {
    var qa, qb := Ratio(d.x0, p.x0, p.x1), Ratio(d.x1, p.x0, p.x1);
    RatioFacts(d.x0, p.x0, p.x1);
    RatioFacts(d.x1, p.x0, p.x1);
    RatioMonotone(d.x0, d.x1, p.x0, p.x1);
    TurnFacts(Clamp01(qa), Clamp01(qb));
    assert (Clamp01(qa) < Clamp01(qb)) == (qa < qb && qa < 1.0 && qb > 0.0);
  }
}
