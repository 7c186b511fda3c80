/**
 * The IMGUI inputs the editor reacts to, as explicit values: one mouse
 * event per step, and the context-menu items a handler may offer.
 */
module Gui {
  import opened Geometry
  import opened Wrappers

  /** Event types the editor handles; `Used` is what `Event.Use()` turns an event into. */
  datatype EventType = MouseDown | MouseUp | MouseDrag | ScrollWheel | Used

  datatype Event = Event(
    kind: EventType,
    button: int,
    pos: Vec2,
    delta: Vec2,
    clickCount: int,
    control: bool)

  /** `Event.Use()`: later handlers see the event as already consumed. */
  function Use(e: Event): Event {
    e.(kind := Used)
  }

  /** The items a context menu can offer; choosing one runs the matching callback. */
  datatype MenuItem =
    | AddNodeItem(at: Vec2)
    | CreateCommentItem
    | RemoveNodeItem(node: nat)
    | RemoveCommentItem(comment: nat)
    | ShowInProjectItem(typeName: Option<string>)

  /** `if (menu.GetItemCount() > 0) menu.ShowAsContext()`. */
  function ShowMenu(items: seq<MenuItem>): (r: Option<seq<MenuItem>>)
    ensures r.Some? <==> |items| > 0
    ensures r.Some? ==> r.value == items
  {
    if |items| > 0 then Some(items) else None
  }
}
