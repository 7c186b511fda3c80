/**
 * The node editor window's state and its operations (NodeEditorWindow.cs),
 * apart from event routing, which is in module EditorEvents.
 *
 * Nodes are objects compared by reference: `store` is the heap of every node
 * ever created, `nodes` the window's list, `selected` the `selectedNodes`
 * list. A removed node leaves the list but not the heap, and may stay in
 * the selection, as in the source.
 */
module Editor {
  import opened Geometry
  import opened Wrappers
  import opened Text
  import opened Gui
  import opened Anchors
  import opened Links
  import opened Nodes
  import C = Comments
  import Branch
  import opened Selection

  datatype Editor = Editor(
    readOnly: bool,
    search: string,
    store: map<NodeId, Node>,
    nodes: seq<NodeId>,
    connections: seq<Connection>,
    comments: seq<C.Comment>,
    pendingIn: Option<Anchor>,
    pendingOut: Option<Anchor>,
    zoom: real,
    commenting: bool,
    selStart: Vec2,
    selEnd: Vec2,
    selBox: Rect,
    selected: seq<NodeId>,
    dragging: bool,
    startInput: Vec2,
    endInput: Vec2,
    nextId: nat)

  /** A freshly opened window. */
  function Initial(readOnly: bool): Editor {
    Editor(readOnly, "", map[], [], [], [], None, None, 1.0, false,
           Zero2, Zero2, ZeroRect, [], false, Zero2, Zero2, 0)
  }

  // ---------------------------------------------------------------- invariants

  /** Every stored node knows its own id, owns its two points, and was allocated below `nextId`. */
  predicate StoreOk(e: Editor) {
    forall id :: id in e.store ==> e.store[id].id == id && WellFormed(e.store[id]) && id < e.nextId
  }

  /** The window's node list refers to stored nodes, each once. */
  predicate ListOk(e: Editor) {
    (forall k :: 0 <= k < |e.nodes| ==> e.nodes[k] in e.store) && NoDup(e.nodes)
  }

  /** A node's `isSelected` is true iff it is in `selectedNodes`, which has no duplicates. */
  predicate SelectionOk(e: Editor) {
    Selection.Ok(SelOf(e))
  }

  /** Every link joins an in point to an out point of nodes still in the window. */
  predicate LinksOk(e: Editor) {
    forall c :: c in e.connections ==>
      c.inPoint.kind == In && c.outPoint.kind == Out && c.inPoint.owner in e.nodes && c.outPoint.owner in e.nodes
  }

  /** The pending slots hold points of the right kind on nodes still in the window. */
  predicate PendingOk(e: Editor) {
    && (e.pendingIn.Some? ==> e.pendingIn.value.kind == In && e.pendingIn.value.owner in e.nodes)
    && (e.pendingOut.Some? ==> e.pendingOut.value.kind == Out && e.pendingOut.value.owner in e.nodes)
  }

  /** Every node the list holds has a name (a null name makes drawing and loading throw). */
  predicate Named(store: map<NodeId, Node>, ids: seq<NodeId>) {
    forall k :: 0 <= k < |ids| && ids[k] in store ==> store[ids[k]].name.Some?
  }

  predicate CommentsOk(e: Editor) {
    forall k :: 0 <= k < |e.comments| ==> e.comments[k].id < e.nextId
  }

  const MinZoom := 0.25
  const MaxZoom := 1.25
  const ZoomStep := 0.1

  predicate ZoomOk(e: Editor) {
    MinZoom <= e.zoom <= MaxZoom
  }

  predicate Valid(e: Editor) {
    StoreOk(e) && ListOk(e) && SelectionOk(e) && LinksOk(e) && PendingOk(e) && CommentsOk(e) && ZoomOk(e)
  }

  lemma InitialValid(readOnly: bool)
    ensures Valid(Initial(readOnly))
  {
  }

  // ---------------------------------------------------------------- selection

  function SelOf(e: Editor): Sel {
    Sel(e.store, e.selected)
  }

  function WithSel(e: Editor, s: Sel): Editor {
    e.(store := s.store, selected := s.list)
  }

  /** `ClearSelection`. */
  function ClearSelection(e: Editor): Editor {
    WithSel(e, Clear(SelOf(e)))
  }

  /** `ProcessNodes(box)`: scans the node list from the end. */
  function ProcessNodes(e: Editor, box: Rect): Editor {
    WithSel(e, Scan(SelOf(e), e.nodes, box, |e.nodes|))
  }

  /** `SelectionContains`. */
  predicate SelectionContains(e: Editor, p: Vec2) {
    Selection.Contains(SelOf(e), p)
  }

  /**
   * `SelectBranch(root, left)` with `left` = control held: selects every
   * node reachable from `root` along links (see module Branch).
   */
  function SelectBranch(e: Editor, root: NodeId, up: bool): Editor {
    WithSel(e, ApplyMarks(SelOf(e), Branch.BranchMarks(e.connections, up, root)))
  }

  // ---------------------------------------------------------------- dragging and zoom

  /** Moves each listed node once per occurrence. */
  function DragAll(store: map<NodeId, Node>, ids: seq<NodeId>, d: Vec2): (r: map<NodeId, Node>)
    ensures r.Keys == store.Keys
    ensures forall id :: id in store ==> r[id] == store[id].(rect := r[id].rect)
    ensures NoDup(ids) ==> forall id :: id in store ==>
      r[id].rect == (if id in ids then Translate(store[id].rect, d) else store[id].rect)
  {
    if ids == [] then store
    else
      var s1 := if ids[0] in store then store[ids[0] := Drag(store[ids[0]], d)] else store;
      DragAll(s1, ids[1..], d)
  }

  /** `DragSelection`: moves every selected node by the delta. */
  function DragSelection(e: Editor, d: Vec2): Editor {
    e.(store := DragAll(e.store, e.selected, d))
  }

  /** `OnDrag` (middle-button pan): moves every node in the list and every comment. */
  function OnDrag(e: Editor, d: Vec2): (r: Editor)
    ensures |r.comments| == |e.comments|
    ensures forall k :: 0 <= k < |e.comments| ==> r.comments[k] == C.DragBy(e.comments[k], d)
  {
    e.(store := DragAll(e.store, e.nodes, d),
       comments := seq(|e.comments|, k requires 0 <= k < |e.comments| => C.DragBy(e.comments[k], d)))
  }

  function Clamp(v: real, lo: real, hi: real): real {
    if v < lo then lo else if v > hi then hi else v
  }

  /** `OnZoom`: a negative scroll adds a step, anything else removes one, then clamp. */
  function OnZoom(zoom: real, dy: real): (r: real)
    ensures MinZoom <= r <= MaxZoom
    ensures dy < 0.0 && MinZoom <= zoom + ZoomStep <= MaxZoom ==> r == zoom + ZoomStep
    ensures dy >= 0.0 && MinZoom <= zoom - ZoomStep <= MaxZoom ==> r == zoom - ZoomStep
    ensures dy < 0.0 && zoom <= MaxZoom ==> r >= zoom
    ensures dy >= 0.0 && zoom >= MinZoom ==> r <= zoom
  {
    var step := if dy < 0.0 then ZoomStep else -ZoomStep;
    Clamp(zoom + step, MinZoom, MaxZoom)
  }

  // ---------------------------------------------------------------- authoring

  /** `AddNode`: appends an existing node to the window's list. */
  function AddNode(e: Editor, id: NodeId): (r: Editor)
    ensures |r.nodes| == |e.nodes| + 1 && r.nodes[..|e.nodes|] == e.nodes && r.nodes[|e.nodes|] == id
    ensures r == e.(nodes := r.nodes)
  {
    e.(nodes := e.nodes + [id])
  }

  /** Allocates a node object: the heap gains it under the next free id. */
  function Allocate(e: Editor, n: Node): (r: Editor)
    requires n.id == e.nextId
    ensures r.store == e.store[n.id := n] && r.nextId == e.nextId + 1
    ensures n.id !in e.store || !StoreOk(e)
  {
    e.(store := e.store[n.id := n], nextId := e.nextId + 1)
  }

  /** `OnClickAddNode`: a 200x50 node at the mouse position with all callbacks. */
  function AddNodeAt(e: Editor, pos: Vec2): (r: Editor)
    ensures r.nodes == e.nodes + [e.nextId] && r.nextId == e.nextId + 1
    ensures r.store == e.store[e.nextId := NewAt(e.nextId, pos, 200.0, 50.0, true, true)]
  {
    AddNode(Allocate(e, NewAt(e.nextId, pos, 200.0, 50.0, true, true)), e.nextId)
  }

  /**
   * `CreateConnection(from, to)`: the link runs from `to`'s in point to
   * `from`'s out point, removable unless the window is read-only.
   */
  function CreateConnectionBetween(e: Editor, from: NodeId, to: NodeId): (r: Editor)
    ensures |r.connections| == |e.connections| + 1 && r.connections[..|e.connections|] == e.connections
    ensures var c := r.connections[|e.connections|];
      && c.inPoint.kind == In && c.inPoint.owner == to
      && c.outPoint.kind == Out && c.outPoint.owner == from
      && c.removable == !e.readOnly
    ensures r == e.(connections := r.connections)
  {
    e.(connections := e.connections + [Connection(Anchor(to, In), Anchor(from, Out), !e.readOnly)])
  }

  /** `CreateComment(rect, text)`: a new removable comment with the given text. */
  function CreateComment(e: Editor, rect: Rect, text: string): (r: Editor)
    ensures r.comments == e.comments + [C.Comment(e.nextId, rect, text, C.None, true)]
    ensures r.nextId == e.nextId + 1
    ensures r == e.(comments := r.comments, nextId := r.nextId)
  {
    e.(comments := e.comments + [C.NewComment(e.nextId, rect, text, true)], nextId := e.nextId + 1)
  }

  /** The private `CreateConnection()`: links the two pending points. */
  function LinkPending(e: Editor): Editor
    requires e.pendingIn.Some? && e.pendingOut.Some?
  {
    e.(connections := e.connections + [Connection(e.pendingIn.value, e.pendingOut.value, true)])
  }

  function ClearPending(e: Editor): Editor {
    e.(pendingIn := None, pendingOut := None)
  }

  /** `OnClickInPoint`. */
  function ClickInPoint(e: Editor, a: Anchor): (r: Editor)
    ensures e.pendingOut.None? ==> r == e.(pendingIn := Some(a))
    ensures e.pendingOut.Some? && e.pendingOut.value.owner != a.owner ==>
      r == e.(connections := e.connections + [Connection(a, e.pendingOut.value, true)], pendingIn := None, pendingOut := None)
    ensures e.pendingOut.Some? && e.pendingOut.value.owner == a.owner ==>
      r == e.(pendingIn := None, pendingOut := None)
  {
    var e1 := e.(pendingIn := Some(a));
    if e1.pendingOut.Some? then
      if e1.pendingOut.value.owner != a.owner then ClearPending(LinkPending(e1)) else ClearPending(e1)
    else e1
  }

  /** `OnClickOutPoint`. */
  function ClickOutPoint(e: Editor, a: Anchor): (r: Editor)
    ensures e.pendingIn.None? ==> r == e.(pendingOut := Some(a))
    ensures e.pendingIn.Some? && e.pendingIn.value.owner != a.owner ==>
      r == e.(connections := e.connections + [Connection(e.pendingIn.value, a, true)], pendingIn := None, pendingOut := None)
    ensures e.pendingIn.Some? && e.pendingIn.value.owner == a.owner ==>
      r == e.(pendingIn := None, pendingOut := None)
  {
    var e1 := e.(pendingOut := Some(a));
    if e1.pendingIn.Some? then
      if a.owner != e1.pendingIn.value.owner then ClearPending(LinkPending(e1)) else ClearPending(e1)
    else e1
  }

  /**
   * The prefix of the list `DrawNodes` gets through: it stops at the first
   * stored node whose `Draw` throws, and draws nothing from there on.
   */
  function Drawn(store: map<NodeId, Node>, ids: seq<NodeId>, search: string): (r: seq<NodeId>)
    ensures |r| <= |ids| && r == ids[..|r|]
    ensures forall k :: 0 <= k < |r| && r[k] in store ==> !DrawThrows(store[r[k]], search)
    ensures |r| < |ids| ==> ids[|r|] in store && DrawThrows(store[ids[|r|]], search)
  {
    if ids == [] then []
    else if ids[0] in store && DrawThrows(store[ids[0]], search) then []
    else
      var t := Drawn(store, ids[1..], search);
      assert [ids[0]] + t == ids[..|t| + 1] by {
        assert ids == [ids[0]] + ids[1..];
      }
      [ids[0]] + t
  }

  /** The point buttons of node `id` are on screen: it is drawn and the search shows it. */
  predicate PointsLive(e: Editor, id: NodeId) {
    id in e.store && id in Drawn(e.store, e.nodes, Lower(e.search)) && Shown(e.store[id], Lower(e.search))
  }

  /**
   * A click on a point button. Buttons exist only for nodes whose points
   * the last pass drew, and fire only with a callback attached; the in
   * point's callback is `OnClickInPoint`, the out point's `OnClickOutPoint`.
   */
  function ClickAnchor(e: Editor, id: NodeId, kind: Kind): (r: Editor)
    ensures !PointsLive(e, id) ==> r == e
    ensures PointsLive(e, id) ==> id in e.nodes
    ensures PointsLive(e, id) ==>
      var p := if kind == In then e.store[id].inPoint else e.store[id].outPoint;
      match Click(p)
      case None => r == e
      case Some(a) => r == (if kind == In then ClickInPoint(e, a) else ClickOutPoint(e, a))
  {
    if PointsLive(e, id) then
      var p := if kind == In then e.store[id].inPoint else e.store[id].outPoint;
      match Click(p)
      case None => e
      case Some(a) => if kind == In then ClickInPoint(e, a) else ClickOutPoint(e, a)
    else e
  }

  // ---------------------------------------------------------------- removal

  /** Link `c` is attached to node `id`: its in point is the node's in point or its out point the node's out point. */
  predicate Touches(c: Connection, id: NodeId) {
    c.inPoint == Anchor(id, In) || c.outPoint == Anchor(id, Out)
  }

  /** The links that survive removing node `id`, in their original order. */
  function FilterLinks(cs: seq<Connection>, id: NodeId): (r: seq<Connection>)
    ensures forall c :: c in r <==> c in cs && !Touches(c, id)
    ensures |r| <= |cs|
  {
    if cs == [] then []
    else (if Touches(cs[0], id) then [] else [cs[0]]) + FilterLinks(cs[1..], id)
  }

  /** Filtering distributes over concatenation, so surviving links keep their relative order. */
  lemma {:induction false} FilterLinksAppend(a: seq<Connection>, b: seq<Connection>, id: NodeId)
    ensures FilterLinks(a + b, id) == FilterLinks(a, id) + FilterLinks(b, id)
  {
    if a == [] {
      assert a + b == b;
    } else {
      assert (a + b)[1..] == a[1..] + b;
      FilterLinksAppend(a[1..], b, id);
    }
  }

  /** A link list with nothing attached to the node passes through unchanged. */
  lemma {:induction false} FilterLinksKeepsUntouched(cs: seq<Connection>, id: NodeId)
    requires forall c :: c in cs ==> !Touches(c, id)
    ensures FilterLinks(cs, id) == cs
  {
    if cs != [] {
      FilterLinksKeepsUntouched(cs[1..], id);
    }
  }

  /** `List.Remove`: drops the first occurrence, if any. */
  function RemoveFirst<T(==)>(s: seq<T>, x: T): (r: seq<T>)
    ensures x !in s ==> r == s
    ensures x in s ==> |r| == |s| - 1
    ensures forall y :: y in r ==> y in s
    ensures forall y :: y in s && y != x ==> y in r
    ensures NoDup(s) ==> x !in r && NoDup(r)
  {
    if s == [] then []
    else if s[0] == x then s[1..]
    else
      var t := RemoveFirst(s[1..], x);
      assert NoDup(s) ==> NoDup(s[1..]) && s[0] !in s[1..];
      [s[0]] + t
  }

  /**
   * `OnClickRemoveNode` as written: drop every attached link, then drop the
   * node from the list. The pending point slots are left alone.
   */
  function RemoveNodeAsWritten(e: Editor, id: NodeId): (r: Editor)
    ensures forall c :: c in r.connections <==> c in e.connections && !Touches(c, id)
    ensures NoDup(e.nodes) ==> id !in r.nodes
    ensures forall x :: x in r.nodes ==> x in e.nodes
    ensures forall x :: x in e.nodes && x != id ==> x in r.nodes
    ensures r.pendingIn == e.pendingIn && r.pendingOut == e.pendingOut
    ensures r == e.(connections := r.connections, nodes := r.nodes)
  {
    e.(connections := FilterLinks(e.connections, id), nodes := RemoveFirst(e.nodes, id))
  }

  function DropOwned(p: Option<Anchor>, id: NodeId): (r: Option<Anchor>)
    ensures r.Some? ==> r == p && r.value.owner != id
  {
    if p.Some? && p.value.owner == id then None else p
  }

  /**
   * Node removal as the model performs it: `RemoveNodeAsWritten` plus
   * forgetting a pending point that belongs to the removed node.
   */
  function RemoveNode(e: Editor, id: NodeId): (r: Editor)
    ensures forall c :: c in r.connections <==> c in e.connections && !Touches(c, id)
    ensures NoDup(e.nodes) ==> id !in r.nodes
    ensures forall x :: x in r.nodes ==> x in e.nodes
    ensures forall x :: x in e.nodes && x != id ==> x in r.nodes
    ensures r.pendingIn.Some? ==> r.pendingIn.value.owner != id && r.pendingIn == e.pendingIn
    ensures r.pendingOut.Some? ==> r.pendingOut.value.owner != id && r.pendingOut == e.pendingOut
    ensures r.store == e.store && r.selected == e.selected && r.comments == e.comments
  {
    RemoveNodeAsWritten(e, id).(pendingIn := DropOwned(e.pendingIn, id), pendingOut := DropOwned(e.pendingOut, id))
  }

  /** `OnClickRemoveComment`: drops the first comment that is this one. */
  function RemoveComment(e: Editor, cid: nat): (r: Editor)
    ensures |r.comments| <= |e.comments|
    ensures forall c :: c in r.comments ==> c in e.comments
    ensures forall c :: c in e.comments && c.id != cid ==> c in r.comments
    ensures r == e.(comments := r.comments)
  {
    e.(comments := RemoveFirstComment(e.comments, cid))
  }

  function RemoveFirstComment(cs: seq<C.Comment>, cid: nat): (r: seq<C.Comment>)
    ensures |r| <= |cs|
    ensures forall c :: c in r ==> c in cs
    ensures forall c :: c in cs && c.id != cid ==> c in r
    ensures (forall c :: c in cs ==> c.id != cid) ==> r == cs
  {
    if cs == [] then []
    else if cs[0].id == cid then cs[1..]
    else [cs[0]] + RemoveFirstComment(cs[1..], cid)
  }

  /** `OnClickRemoveConnection`: drops the clicked link. */
  function RemoveConnectionAt(e: Editor, i: nat): (r: Editor)
    ensures i < |e.connections| ==> r.connections == e.connections[..i] + e.connections[i + 1..]
    ensures i >= |e.connections| ==> r == e
    ensures r == e.(connections := r.connections)
    ensures forall c :: c in r.connections ==> c in e.connections
  {
    if i < |e.connections| then e.(connections := e.connections[..i] + e.connections[i + 1..]) else e
  }

  /**
   * A click on link `i`'s remove handle. Links are drawn only while the
   * search is empty, and the handle exists only with a remove callback.
   */
  function ClickConnectionHandle(e: Editor, i: nat): (r: Editor)
    ensures !(e.search == [] && i < |e.connections| && e.connections[i].removable) ==> r == e
    ensures e.search == [] && i < |e.connections| && e.connections[i].removable ==>
      r.connections == e.connections[..i] + e.connections[i + 1..]
    ensures r == e.(connections := r.connections)
    ensures forall c :: c in r.connections ==> c in e.connections
  {
    if e.search == [] && i < |e.connections| then
      match ClickHandle(e.connections[i], i)
      case Some(j) => RemoveConnectionAt(e, j)
      case None => e
    else e
  }

  // ---------------------------------------------------------------- comments

  const Margin := 10.0

  /** One step of the wrapping loop in `OnClickCreateComment`. */
  function WrapStep(acc: Rect, nr: Rect): (r: Rect)
    ensures r.x <= acc.x - Margin && r.x <= nr.x - Margin
    ensures r.y <= acc.y - Margin && r.y <= nr.y - Margin
    ensures r.XMax() >= acc.XMax() + Margin && r.XMax() >= nr.XMax() + Margin
    ensures r.YMax() >= acc.YMax() + Margin && r.YMax() >= nr.YMax() + Margin
  {
    var r1 := SetXMin(acc, Min(acc.x, nr.x) - Margin);
    var r2 := SetYMin(r1, Min(r1.y, nr.y) - Margin);
    var r3 := SetXMax(r2, Max(r2.XMax(), nr.XMax()) + Margin);
    SetYMax(r3, Max(r3.YMax(), nr.YMax()) + Margin)
  }

  /** `a` holds `b` with at least `Margin` to spare on every side. */
  predicate Wraps(a: Rect, b: Rect) {
    a.x <= b.x - Margin && a.y <= b.y - Margin && a.XMax() >= b.XMax() + Margin && a.YMax() >= b.YMax() + Margin
  }

  /** The wrapping loop over the selection list. */
  function WrapAll(store: map<NodeId, Node>, ids: seq<NodeId>, acc: Rect): (r: Rect)
    ensures r.x <= acc.x && r.y <= acc.y && r.XMax() >= acc.XMax() && r.YMax() >= acc.YMax()
    ensures forall k :: 0 <= k < |ids| && ids[k] in store ==> Wraps(r, store[ids[k]].rect)
  {
    if ids == [] then acc
    else
      var acc1 := if ids[0] in store then WrapStep(acc, store[ids[0]].rect) else acc;
      var r := WrapAll(store, ids[1..], acc1);
      assert forall k :: 1 <= k < |ids| ==> ids[k] == ids[1..][k - 1];
      r
  }

  /**
   * `OnClickCreateComment`: with nothing selected, enter comment mode;
   * otherwise add a "New Comment" box wrapping every selected node.
   */
  function OnClickCreateComment(e: Editor): (r: Editor)
    ensures |e.selected| == 0 ==> r == e.(commenting := true)
    ensures |e.selected| > 0 ==>
      && |r.comments| == |e.comments| + 1 && r.comments[..|e.comments|] == e.comments
      && r.comments[|e.comments|].text == "New Comment"
      && r.comments[|e.comments|].state == C.None
      && (forall k :: 0 <= k < |e.selected| && e.selected[k] in e.store ==>
            Wraps(r.comments[|e.comments|].rect, e.store[e.selected[k]].rect))
      && r == e.(comments := r.comments, nextId := r.nextId)
  {
    if |e.selected| == 0 then e.(commenting := true)
    else
      var first := if e.selected[0] in e.store then e.store[e.selected[0]].rect else ZeroRect;
      var rect := WrapAll(e.store, e.selected, first);
      var r := CreateComment(e, rect, "New Comment");
      assert r.comments[..|e.comments|] == e.comments;
      r
  }

  // ---------------------------------------------------------------- menus

  /** The window's own context menu. */
  function CanvasItems(e: Editor, pos: Vec2): (items: seq<MenuItem>)
    ensures AddNodeItem(pos) in items <==> !e.readOnly
    ensures CreateCommentItem in items && |items| > 0
  {
    (if !e.readOnly then [AddNodeItem(pos)] else []) + [CreateCommentItem]
  }

  /**
   * Choosing a context-menu item runs its callback, with node removal as
   * the model performs it (`RemoveNode`, which forgets a pending point on
   * the removed node); `ChooseAsWritten` is the source's own callback.
   */
  function Choose(e: Editor, item: MenuItem): (r: Editor)
    ensures item.AddNodeItem? ==>
      r.nodes == e.nodes + [e.nextId] && e.nextId in r.store && r.store[e.nextId].rect.Position() == item.at && r.store[e.nextId].removable
    ensures item.CreateCommentItem? ==> r.nodes == e.nodes && r.store == e.store && r.connections == e.connections
    ensures item.RemoveNodeItem? ==>
      && (forall c :: c in r.connections ==> !Touches(c, item.node))
      && (r.pendingIn.Some? ==> r.pendingIn.value.owner != item.node)
      && (r.pendingOut.Some? ==> r.pendingOut.value.owner != item.node)
    ensures item.RemoveCommentItem? ==> r == e.(comments := r.comments) && |r.comments| <= |e.comments|
    ensures item.ShowInProjectItem? ==> r == e
  {
    match item
    case AddNodeItem(pos) => AddNodeAt(e, pos)
    case CreateCommentItem => OnClickCreateComment(e)
    case RemoveNodeItem(id) => RemoveNode(e, id)
    case RemoveCommentItem(cid) => RemoveComment(e, cid)
    case ShowInProjectItem(_) => e
  }

  /** The menu as the source wires it: "Remove node" runs `RemoveNodeAsWritten`. */
  function ChooseAsWritten(e: Editor, item: MenuItem): (r: Editor)
    ensures !item.RemoveNodeItem? ==> r == Choose(e, item)
    ensures item.RemoveNodeItem? ==> r.pendingIn == e.pendingIn && r.pendingOut == e.pendingOut
    ensures item.RemoveNodeItem? ==> forall c :: c in r.connections <==> c in e.connections && !Touches(c, item.node)
  {
    match item
    case RemoveNodeItem(id) => RemoveNodeAsWritten(e, id)
    case _ => Choose(e, item)
  }
}
