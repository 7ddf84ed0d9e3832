# Sunburst chart widget: zoom geometry and widget state in Dafny

This project models the logic of a reusable sunburst chart widget. The widget
draws a tree as a radial partition. The root is the centre disc, each tree level
is one ring, and a node's angular band is proportional to its value. Clicking an
arc that has children zooms into it. Clicking the centre circle zooms back out
to the parent.

The model covers four parts of `src/index.js`:

- **Visibility** (`Geometry.ArcVisible`, `Geometry.LabelVisible`). An arc is drawn
  when it lies within `displayDepth` rings, is not the centre disc and has
  positive angular width. A label needs the same ring conditions and an
  angular-times-radial area above 0.03.
- **Zoom reprojection** (`Geometry.Target`, `Zoom.Chart.Clicked`). A click on a
  node `p` gives every node a target extent. Its angular ends are renormalised
  to `p`'s span, clamped to [0, 1] and scaled to a full turn. Its radial ends
  are shifted in by `p`'s depth and floored at 0. The centre circle is
  re-pointed at `p`'s parent, or at the root when `p` has none.
- **Colour category** (`Partition.TopLevelAncestor`). A loop climbs parent
  links from an arc until it reaches depth 1. That ancestor's name chooses the
  arc's colour.
- **Widget state** (`Widget.Sunburst`). The constructor fills in defaults for
  missing properties. `SetData` replaces the dataset and returns the widget
  itself.

Modules, one file each:

- `wrappers.dfy`: `Option`, for JavaScript's missing values.
- `geometry.dfy`: `Extent`, the visibility predicates, and the clamp, floor and
  rescale steps. It also holds `Target` and the lemmas about it. It is pure.
- `partition.dfy`: the partition layout's output. This is a sequence of nodes
  in breadth-first order, root first, each with a depth, a parent index and an
  extent. `WellFormed` states what the layout guarantees. The file also holds
  ancestry and the top-level-ancestor loop.
- `zoom.dfy`: the class `Chart`. It holds the per-node `current` and `target`
  extents and the centre circle's datum (`pivot`). It also holds the node
  named by the centre label (`focus`). `Clicked` and `ClickCentre` update
  them in place.
- `widget.dfy`: the class `Sunburst` with fields `data`, `colors` and
  `displayDepth`.

Modelling choices:

- Numbers are reals. `Pi` is the decimal literal of the double `Math.PI`. No
  proof depends on its digits, only on its being positive. Each nonlinear step
  (cancelling a division, the sign and order of a quotient, scaling by a full
  turn) is a small lemma of its own in `geometry.dfy`, and the zoom lemmas
  combine them linearly.
- `arcVisible` and `labelVisible` read only `this.displayDepth`. Here they take
  it as a parameter.
- The d3 `hierarchy`/`partition` calls are not modelled. Their output is taken
  as the precondition `Partition.WellFormed`:
  - the root is first, spans [0, 2π] at depth 0 and has no parent;
  - every other node's parent comes earlier and is one level up;
  - every node's angular band is nested in its parent's;
  - every node has `y0 = depth` and `y0 ≤ y1`.
- A zoom to a node of zero angular width divides by zero in the source and
  yields NaN. `Clicked` therefore requires `p.x1 > p.x0`. The centre circle
  always leads to a node of positive width. This is part of `Chart.Valid`, so
  `ClickCentre` needs no extra precondition.

## Model

| member | source | states |
|---|---|---|
| `Geometry.ArcVisible` | src/index.js:18-21 | An arc is drawn exactly when `y1 ≤ displayDepth`, `y0 ≥ 1` and `x1 > x0`. |
| `Geometry.LabelVisible` | src/index.js:23-28 | A label is drawn exactly when `y1 ≤ displayDepth`, `y0 ≥ 1` and `(y1 - y0) * (x1 - x0) > 0.03`. |
| `Geometry.NeverVisible` | src/index.js:18-28 | The centre disc (`y0 < 1`) is never drawn as an arc or labelled. An arc of zero or negative angular width is never drawn. |
| `Geometry.LabelVisibleImpliesArcVisible` | src/index.js:18-28 | When `y0 ≤ y1`, a visible label implies a visible arc. |
| `Geometry.Clamp01` | src/index.js:157 | `Math.max(0, Math.min(1, r))` lies in [0, 1]. It is the identity on [0, 1], 0 below and 1 above. |
| `Geometry.Floor0` | src/index.js:164-165 | `Math.max(0, v)` is never negative and is the identity on non-negative `v`. |
| `Geometry.Rescale` | src/index.js:156-163 | A rescaled angular end lies in [0, 2π]. An end at or before the span's start maps to 0, and one at or after its end maps to 2π. |
| `Geometry.RescaleMonotone` | src/index.js:156-163 | Clamp-and-scale keeps the order of two angles. |
| `Geometry.RescaleInsideSpan` | src/index.js:156-163 | Inside the span, rescaling is the linear map from [p.x0, p.x1] onto [0, 2π]. |
| `Geometry.Target` | src/index.js:155-166 | For a span of positive width, both target angular ends lie in [0, 2π]. Both target radial ends are non-negative. |
| `Geometry.ZoomedNodeFillsCircle` | src/index.js:155-166 | The zoomed node's own target band is exactly [0, 2π]. If its `y0` equals its depth, its target `y0` is 0, so it is not drawn as an arc. |
| `Geometry.TargetMonotone` | src/index.js:155-166 | `x0 ≤ x1` implies target `x0 ≤ x1`. `y0 ≤ y1` implies target `y0 ≤ y1`. |
| `Geometry.OutsideSpanCollapses` | src/index.js:155-166 | A node wholly outside the zoomed span gets zero target width. Its arc and label are not drawn. |
| `Geometry.RadialShift` | src/index.js:164-165 | For a node with `y0 ≥ p.depth`, the target `y0` is `y0 - p.depth` and the radial width is preserved. |
| `Geometry.InsideSpanMagnified` | src/index.js:155-163 | A node inside the zoomed span has its angular width scaled by 2π / (p.x1 - p.x0). A positive width stays positive. |
| `Geometry.ZoomToRootIsIdentity` | src/index.js:155-166 | Zooming to the full turn at depth 0 leaves unchanged every extent that lies within [0, 2π] with non-negative radii. |
| `Geometry.ArcVisibleAfterZoom` | src/index.js:18-21 | After a zoom to `p`, a node with `y0 ≤ y1` is drawn exactly when three things hold: it lies between ring `p.depth + 1` and ring `p.depth + displayDepth`; its band has positive width; and its band overlaps `p`'s span. Both directions are proved. |
| `Partition.AncestorAtDepth` | src/index.js:92-95 | Climbing parent links from a node to depth `dep` reaches an ancestor (or the node itself) at exactly that depth. |
| `Partition.AncestorIsShallower` | src/index.js:93-94 | An ancestor is never deeper than its descendant, and a proper ancestor is strictly shallower. |
| `Partition.AncestorAtDepthUnique` | src/index.js:92-96 | Every ancestor of a node is the one `AncestorAtDepth` finds at that ancestor's depth. So each depth has only one. |
| `Partition.WithinFullCircle` | src/index.js:45 | Every laid-out node lies within [0, 2π] with `0 ≤ y0 ≤ y1`. |
| `Partition.TopLevelAncestor` | src/index.js:92-96 | The colour loop terminates at an ancestor (or the node itself) of depth ≤ 1. For a start of depth ≥ 1, that is its unique depth-1 ancestor. For the root, it is the root itself. |
| `Zoom.PivotAfter` | src/index.js:150-151 | The centre circle's new datum is `p`'s parent when there is one: an earlier node one level up that is an ancestor of `p`. For the root, it is the root. |
| `Zoom.PivotKeepsPositiveWidth` | src/index.js:151 | If `p` has positive angular width, so does the node the centre circle leads to. |
| `Zoom.Chart.constructor` | src/index.js:48-53 | At render, every node's current extent is its laid-out extent. The centre circle's datum is the root, and the centre label names the root. |
| `Zoom.Chart.Clicked` | src/index.js:147-167 | After a click on `p`, the pivot is `p.parent` or the root, the centre label names `p`, and every node's target is `Target(node, p)`. The current extents are unchanged. |
| `Zoom.Chart.ClickCentre` | src/index.js:211 | A click on the centre circle is a zoom to its datum. At the root view (focus on the root), focus and pivot stay on the root and every target equals where the node is already drawn, so the click is a no-op. `Chart.Valid` keeps the pivot at the focused node's parent (the root at the root view) and every current extent at the layout. |
| `Zoom.ZoomToRootKeepsLayout` | src/index.js:155-166 | For a well-formed layout, zooming to the root maps every node onto its own extent. |
| `Zoom.DescendantWithinSpan` | src/index.js:45 | A descendant's angular band lies within its ancestor's band. |
| `Zoom.ZoomShowsDescendants` | src/index.js:153-167 | After a zoom to `p`, `p`'s target is the centre disc over the full turn. A descendant of `p` is drawn exactly when it is not `p`, has positive width and ends within `displayDepth` rings of `p`. |
| `Widget.DisplayDepthOrDefault` | src/index.js:15 | A missing or zero display depth becomes 4. Any other value is kept. The result is never 0. |
| `Widget.Sunburst.constructor` | src/index.js:12-16 | Missing data becomes `{}` and missing colours become `[]`. The display depth is defaulted to 4 and is never 0. |
| `Widget.Sunburst.SetData` | src/index.js:30-33 | `data` becomes the argument and the same object is returned. `colors` and `displayDepth` are unchanged. |

## Left out

- The d3 hierarchy and partition layout (value summing, sibling sorting, extent assignment; src/index.js:40-46). This is library code that is not part of this model. Its output is assumed as `Partition.WellFormed`.
- SVG and DOM construction, event binding, cursor styles, tooltips and number formatting (src/index.js:55-145, 211-217). This is presentation. Only the effect of a click on the zoom state is modelled.
- Transitions, interpolation and the opacity filters that read DOM attributes (src/index.js:169-205). This is animation timing and DOM state. So `current` is set only at render, and the root label's text change (line 208) is modelled by `focus` without its transition.
- Colour scales, arc padding and `labelTransform`'s formatting (src/index.js:5-9, 57-71). These are library calls and floating-point output. `TopLevelAncestor` returns the node whose name picks the colour, not the colour itself.
- IEEE-double behaviour, including the NaN from a zoom to a node of zero width. The model works over reals and requires positive width.
- Falsy property values other than a missing property (`null` for any property, and NaN, `""` or `false` for `displayDepth`). The model's `None` is a property left out, and a zero `displayDepth` is modelled as falsy.
- `Zoom.Chart.constructor`: the source leaves `target` unset until the first click. The model allocates the array and states nothing about its contents.
