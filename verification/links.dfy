/** Links between connection points (Connection.cs). */
module Links {
  import opened Geometry
  import opened Wrappers
  import opened Anchors

  /** A link: its in point, its out point, and whether a remove callback is attached. */
  datatype Connection = Connection(inPoint: Anchor, outPoint: Anchor, removable: bool)

  /**
   * The remove handle drawn on a link, given the two points' centres.
   * Both draw modes (bezier and straight lines) place it the same way.
   */
  function RemoveHandle(c: Connection, inCenter: Vec2, outCenter: Vec2): (r: Option<Vec2>)
    ensures r.Some? <==> c.removable
    ensures r.Some? ==> r.value.x - inCenter.x == outCenter.x - r.value.x
    ensures r.Some? ==> r.value.y - inCenter.y == outCenter.y - r.value.y
  {
    if c.removable
    then Some(Vec2((inCenter.x + outCenter.x) * 0.5, (inCenter.y + outCenter.y) * 0.5))
    else None
  }

  /** The handle of a link is the same point whichever end is named first. */
  lemma HandleSymmetric(c: Connection, a: Vec2, b: Vec2)
    ensures RemoveHandle(c, a, b) == RemoveHandle(c, b, a)
  {
  }

  /** Clicking the handle hands the link itself (here: its index) to the callback. */
  function ClickHandle(c: Connection, self: nat): (r: Option<nat>)
    ensures r.Some? <==> c.removable
    ensures r.Some? ==> r.value == self
  {
    if c.removable then Some(self) else None
  }
}
