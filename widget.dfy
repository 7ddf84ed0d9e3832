/**
 * The sunburst widget object: the dataset it renders, the caller's colour
 * palette and how many rings it displays, with the constructor's defaults
 * and the chaining setter for the dataset.
 */
module Widget {
  import opened Wrappers

  /** Rings displayed when the caller gives no (or a zero) display depth. */
  const DefaultDisplayDepth: real := 4.0

  /** A dataset object as the caller passes it: every field may be missing. */
  datatype Hierarchy = Hierarchy(name: Option<string>, value: Option<real>, children: Option<seq<Hierarchy>>)

  /** The empty object `{}`. */
  const EmptyObject: Hierarchy := Hierarchy(None, None, None)

  /** The constructor's argument; passing nothing is the same as passing Props(None, None, None). */
  datatype Props = Props(data: Option<Hierarchy>, colors: Option<seq<string>>, displayDepth: Option<real>)

  /**
   * `displayDepth || 4`: a missing or zero display depth (both falsy) falls
   * back to the default, any other number is kept. The stored depth is never 0.
   */
  function DisplayDepthOrDefault(given: Option<real>): (r: real)
    ensures r != 0.0
    ensures given.Some? && given.value != 0.0 ==> r == given.value
    ensures given == None || given == Some(0.0) ==> r == DefaultDisplayDepth
  {
    match given
    case Some(v) => if v != 0.0 then v else DefaultDisplayDepth
    case None => DefaultDisplayDepth
  }

  class Sunburst {
    var data: Hierarchy
    var colors: seq<string>
    var displayDepth: real

    /** Missing data becomes `{}`, missing colours become [], the display depth is defaulted. */
    constructor (props: Props)
      ensures data == (if props.data.Some? then props.data.value else EmptyObject)
      ensures colors == (if props.colors.Some? then props.colors.value else [])
      ensures displayDepth == DisplayDepthOrDefault(props.displayDepth)
      ensures displayDepth != 0.0
    {
      data := match props.data case Some(d) => d case None => EmptyObject;
      colors := match props.colors case Some(c) => c case None => [];
      displayDepth := DisplayDepthOrDefault(props.displayDepth);
    }

    /** Replaces the dataset and returns this same widget, so that calls chain. */
    method SetData(dataObject: Hierarchy) returns (self: Sunburst)
      modifies this
      ensures self == this
      ensures data == dataObject
      ensures colors == old(colors) && displayDepth == old(displayDepth)
    {
      data := dataObject;
      self := this;
    }
  }
}
