/**
 * Connection points (ConnectionPoint.cs). A point is identified by its owner
 * node and its kind; the source compares points by reference, and each node
 * owns exactly one point of each kind.
 */
module Anchors {
  import opened Geometry
  import opened Wrappers

  type NodeId = nat

  datatype Kind = In | Out

  /** The identity of a connection point. */
  datatype Anchor = Anchor(owner: NodeId, kind: Kind)

  /** A connection point: owner, kind, on-screen rect and whether a click callback is attached. */
  datatype Point = Point(owner: NodeId, kind: Kind, rect: Rect, clickable: bool) {
    function Ref(): Anchor { Anchor(owner, kind) }
  }

  const PointSize := 14.0

  /** The constructor: a 14x14 rect at the origin. */
  function NewPoint(owner: NodeId, kind: Kind, clickable: bool): (p: Point)
    ensures p.Ref() == Anchor(owner, kind) && p.clickable == clickable
    ensures p.rect.Position() == Zero2 && p.rect.Size() == Vec2(PointSize, PointSize)
  {
    Point(owner, kind, Rect(0.0, 0.0, PointSize, PointSize), clickable)
  }

  /** Midpoint of the owner's left edge (In) or right edge (Out). */
  function EdgeMidpoint(owner: Rect, kind: Kind): Vec2 {
    match kind
    case In => Vec2(owner.x, owner.y + owner.h / 2.0)
    case Out => Vec2(owner.XMax(), owner.y + owner.h / 2.0)
  }

  /** The position arithmetic of `Draw`: centre the point on the owner's edge midpoint. */
  function Layout(p: Point, owner: Rect): (q: Point)
    ensures q.Ref() == p.Ref() && q.clickable == p.clickable
    ensures q.rect.Size() == p.rect.Size()
    ensures q.rect.Center() == EdgeMidpoint(owner, p.kind)
  {
    var dx := if p.kind == In then -owner.w * 0.5 - p.rect.w * 0.5 else owner.w * 0.5 - p.rect.w * 0.5;
    var dy := -p.rect.h * 0.5;
    var c := owner.Center();
    p.(rect := Rect(c.x + dx, c.y + dy, p.rect.w, p.rect.h))
  }

  /** Laying out twice against the same owner rect changes nothing more. */
  lemma LayoutIdempotent(p: Point, owner: Rect)
    ensures Layout(Layout(p, owner), owner) == Layout(p, owner)
  {
  }

  /** Clicking the point's button: the callback, when attached, receives the point itself. */
  function Click(p: Point): (r: Option<Anchor>)
    ensures r.Some? <==> p.clickable
    ensures r.Some? ==> r.value == p.Ref()
  {
    if p.clickable then Some(p.Ref()) else None
  }
}
