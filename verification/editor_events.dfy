/**
 * One pass of the editor window's `OnGUI` for one input event
 * (NodeEditorWindow.cs): layout of the node points, the node and comment
 * handlers (or comment creation), then the window's own handler.
 */
module EditorEvents {
  import opened Geometry
  import opened Wrappers
  import opened Text
  import opened Gui
  import opened Anchors
  import opened Nodes
  import opened Editor
  import Selection
  import C = Comments

  /**
   * The state after the event and the context menu it opened, if any;
   * `aborted` is a pass cut short by an exception while drawing the nodes.
   */
  datatype StepResult = StepResult(editor: Editor, menu: Option<seq<MenuItem>>, aborted: bool)

  // ---------------------------------------------------------------- drawing

  /** The heap after drawing, and whether every listed node was drawn. */
  datatype Drawing = Drawing(store: map<NodeId, Node>, complete: bool)

  /**
   * `n` is `m` with its points laid out anew: everything else is kept, and
   * each point keeps its owner, side and clickability.
   */
  predicate Relaid(m: Node, n: Node) {
    && n.(inPoint := m.inPoint, outPoint := m.outPoint) == m
    && n.inPoint.Ref() == m.inPoint.Ref() && n.outPoint.Ref() == m.outPoint.Ref()
    && n.inPoint.clickable == m.inPoint.clickable && n.outPoint.clickable == m.outPoint.clickable
  }

  lemma RelaidTrans(a: Node, b: Node, c: Node)
    requires Relaid(a, b) && Relaid(b, c)
    ensures Relaid(a, c)
  {
  }

  /**
   * `DrawNodes`: each listed node lays out its points for the lowercased
   * search, in list order, until one throws; the nodes drawn before it keep
   * their new layout.
   */
  function LayoutAll(store: map<NodeId, Node>, ids: seq<NodeId>, search: string): (r: Drawing)
    ensures r.complete <== forall k :: 0 <= k < |ids| && ids[k] in store ==> !DrawThrows(store[ids[k]], search)
    ensures r.complete ==> forall k :: 0 <= k < |ids| && ids[k] in store ==> !DrawThrows(store[ids[k]], search)
    ensures r.store.Keys == store.Keys
    ensures forall id :: id in store ==> Relaid(store[id], r.store[id])
    decreases |ids|
  {
    if ids == [] then Drawing(store, true)
    else if ids[0] !in store then
      var r := LayoutAll(store, ids[1..], search);
      NoThrowCons(store, store, ids, search);
      r
    else
      match DrawLayout(store[ids[0]], search)
      case None => Drawing(store, false)
      case Some(n) =>
        var s1 := store[ids[0] := n];
        var r := LayoutAll(s1, ids[1..], search);
        NoThrowCons(store, s1, ids, search);
        RelaidStep(store, s1, r.store);
        r
  }

  /** No stored node of `ids` throws when drawn. */
  predicate NoThrow(store: map<NodeId, Node>, ids: seq<NodeId>, search: string) {
    forall k :: 0 <= k < |ids| && ids[k] in store ==> !DrawThrows(store[ids[k]], search)
  }

  /** Whether a node throws depends on its name only, so relaying a node keeps it. */
  lemma NoThrowCons(store: map<NodeId, Node>, s1: map<NodeId, Node>, ids: seq<NodeId>, search: string)
    requires ids != [] && s1.Keys == store.Keys
    requires forall id :: id in store ==> s1[id].name == store[id].name
    ensures NoThrow(store, ids, search) <==>
      (ids[0] in store ==> !DrawThrows(store[ids[0]], search)) && NoThrow(s1, ids[1..], search)
  {
    assert forall k :: 1 <= k < |ids| ==> ids[k] == ids[1..][k - 1];
  }

  lemma RelaidStep(store: map<NodeId, Node>, s1: map<NodeId, Node>, t: map<NodeId, Node>)
    requires s1.Keys == store.Keys && t.Keys == s1.Keys
    requires forall id :: id in store ==> Relaid(store[id], s1[id])
    requires forall id :: id in s1 ==> Relaid(s1[id], t[id])
    ensures forall id :: id in store ==> Relaid(store[id], t[id])
  {
    forall id | id in store
      ensures Relaid(store[id], t[id])
    {
      RelaidTrans(store[id], s1[id], t[id]);
    }
  }

  function DrawPass(e: Editor): Drawing {
    LayoutAll(e.store, e.nodes, Lower(e.search))
  }

  /**
   * `DrawComments`: a comment in the Edit state draws a `GUI.TextField`
   * over its rectangle, and that control uses a mouse press inside it
   * before any handler of the window runs.
   */
  function EditFieldsTake(cs: seq<C.Comment>, ev: Event): (r: Event)
    ensures r == ev || r == Use(ev)
    ensures r.kind == Used <==>
      ev.kind == Used || (ev.kind == MouseDown && exists k :: 0 <= k < |cs| && cs[k].state == C.Edit && Contains(cs[k].rect, ev.pos))
    decreases |cs|
  {
    if cs == [] then ev
    else
      var ev1 := if ev.kind == MouseDown && cs[0].state == C.Edit && Contains(cs[0].rect, ev.pos) then Use(ev) else ev;
      var r := EditFieldsTake(cs[1..], ev1);
      assert forall k :: 1 <= k < |cs| ==> cs[k] == cs[1..][k - 1];
      r
  }

  // ---------------------------------------------------------------- node and comment handlers

  /** Greatest list index below `i` of a stored node whose rect contains `p`, or -1. */
  function TopContaining(store: map<NodeId, Node>, nodes: seq<NodeId>, p: Vec2, i: nat): (r: int)
    requires i <= |nodes|
    ensures -1 <= r < i
    ensures r >= 0 ==> nodes[r] in store && Contains(store[nodes[r]].rect, p)
    ensures forall k :: r < k < i ==> !(nodes[k] in store && Contains(store[nodes[k]].rect, p))
  {
    if i == 0 then -1
    else if nodes[i - 1] in store && Contains(store[nodes[i - 1]].rect, p) then i - 1
    else TopContaining(store, nodes, p, i - 1)
  }

  datatype Routed = Routed(event: Event, menu: Option<seq<MenuItem>>)

  /**
   * The node loop of `ProcessNodeEvents`, list indices i-1 down to 0: the
   * topmost node under a right-button press opens its menu and uses the
   * event, so no node below sees it.
   */
  function NodePass(store: map<NodeId, Node>, nodes: seq<NodeId>, ev: Event, i: nat): (r: Routed)
    requires i <= |nodes|
    ensures !(ev.button == 1 && ev.kind == MouseDown) ==> r == Routed(ev, None)
    ensures ev.button == 1 && ev.kind == MouseDown && TopContaining(store, nodes, ev.pos, i) < 0 ==>
      r == Routed(ev, None)
    ensures ev.button == 1 && ev.kind == MouseDown && TopContaining(store, nodes, ev.pos, i) >= 0 ==>
      r == Routed(Use(ev), ShowMenu(ContextItems(store[nodes[TopContaining(store, nodes, ev.pos, i)]])))
    decreases i
  {
    if i == 0 then Routed(ev, None)
    else if nodes[i - 1] !in store then NodePass(store, nodes, ev, i - 1)
    else
      var res := ProcessEvents(store[nodes[i - 1]], ev);
      if res.consumed then
        var rest := NodePass(store, nodes, res.event, i - 1);
        assert rest == Routed(res.event, None);
        Routed(rest.event, res.menu)
      else NodePass(store, nodes, res.event, i - 1)
  }

  datatype CommentRouted = CommentRouted(comments: seq<C.Comment>, event: Event, menu: Option<seq<MenuItem>>)

  /** The comment loop of `ProcessNodeEvents`, indices i-1 down to 0. */
  function CommentPass(cs: seq<C.Comment>, ev: Event, i: nat): (r: CommentRouted)
    requires i <= |cs|
    ensures |r.comments| == |cs|
    ensures forall k :: 0 <= k < |cs| ==>
      r.comments[k].id == cs[k].id && r.comments[k].text == cs[k].text && r.comments[k].removable == cs[k].removable
    ensures ev.kind == Used ==> r == CommentRouted(cs, ev, None)
    ensures r.event == ev || r.event == Use(ev)
    ensures r.menu.Some? ==> r.event == Use(ev)
    decreases i
  {
    if i == 0 then CommentRouted(cs, ev, None)
    else
      var res := C.ProcessEvents(cs[i - 1], ev);
      var cs1 := cs[i - 1 := res.comment];
      var rest := CommentPass(cs1, res.event, i - 1);
      if res.menu.Some? then CommentRouted(rest.comments, rest.event, res.menu)
      else rest
  }

  /** `ProcessCreatingComment`: any button; a release adds the dragged-out comment. */
  function CreatingComment(e: Editor, ev: Event): (r: Editor)
    ensures ev.kind == MouseUp ==>
      && r.comments == e.comments + [C.Comment(e.nextId, FromCorners(e.startInput, e.endInput), "Comment", C.None, true)]
      && !r.commenting && r.startInput == Zero2 && r.endInput == Zero2
    ensures ev.kind == MouseDown ==> r == e.(startInput := ev.pos, endInput := ev.pos)
    ensures ev.kind == MouseDrag ==> r == e.(endInput := ev.pos)
    ensures ev.kind !in {MouseDown, MouseUp, MouseDrag} ==> r == e
    ensures r == e.(comments := r.comments, nextId := r.nextId, commenting := r.commenting,
                    startInput := r.startInput, endInput := r.endInput)
  {
    match ev.kind
    case MouseDown => e.(startInput := ev.pos, endInput := ev.pos)
    case MouseUp =>
      CreateComment(e, FromCorners(e.startInput, e.endInput), "Comment")
        .(startInput := Zero2, endInput := Zero2, commenting := false)
    case MouseDrag => e.(endInput := ev.pos)
    case _ => e
  }

  // ---------------------------------------------------------------- window handler

  /** Clears the selection box and its corners, as a drag of the selection starts. */
  function StartDrag(e: Editor): Editor {
    e.(dragging := true, selStart := Zero2, selEnd := Zero2, selBox := ZeroRect)
  }

  /** Clears the selection, then selects every node the box overlaps. */
  function PressHits(e: Editor, box: Rect): (r: Editor)
    ensures r == e.(store := r.store, selected := r.selected)
  {
    ProcessNodes(ClearSelection(e), box)
  }

  /** A single primary press: drag the selection when on it, otherwise reselect under the mouse. */
  function SinglePress(e: Editor, pos: Vec2): (r: Editor)
    ensures r.pendingIn == e.pendingIn && r.pendingOut == e.pendingOut
    ensures r.nodes == e.nodes && r.connections == e.connections && r.comments == e.comments
  {
    if !SelectionContains(e, pos) then
      var e1 := ClearSelection(e).(dragging := false, selStart := pos, selEnd := pos, selBox := UnitAt(pos));
      var e2 := ProcessNodes(e1, e1.selBox);
      if |e2.selected| > 0 then StartDrag(e2) else e2
    else StartDrag(e)
  }

  /** A double (or further) primary press: reselect under the mouse, then the topmost node's branch. */
  function MultiPress(e: Editor, pos: Vec2, up: bool): (r: Editor)
    ensures r.pendingIn == e.pendingIn && r.pendingOut == e.pendingOut
    ensures r.nodes == e.nodes && r.connections == e.connections && r.comments == e.comments
  {
    var e2 := PressHits(e, UnitAt(pos));
    if |e2.selected| > 0 then SelectBranch(e2, e2.selected[0], up) else e2
  }

  /** A primary-button press (`ProcessEvents`, MouseDown with button 0); it first forgets a half-made link. */
  function PrimaryPress(e: Editor, ev: Event): (r: Editor)
    ensures r.pendingIn.None? && r.pendingOut.None?
    ensures r.nodes == e.nodes && r.connections == e.connections && r.comments == e.comments
  {
    var e0 := ClearPending(e);
    if ev.clickCount == 1 then SinglePress(e0, ev.pos) else MultiPress(e0, ev.pos, ev.control)
  }

  /** A primary-button release. */
  function Release(e: Editor): Editor {
    e.(dragging := false, selStart := Zero2, selEnd := Zero2, selBox := ZeroRect)
  }

  /** A primary-button drag: grow the marquee selection, or move the selected nodes. */
  function PrimaryDrag(e: Editor, ev: Event): Editor {
    if !e.dragging then ProcessNodes(e, e.selBox).(selEnd := ev.pos)
    else DragSelection(e, ev.delta)
  }

  /** The `switch` of `ProcessEvents`. */
  function Handle(e: Editor, ev: Event): Editor {
    match ev.kind
    case MouseDown => if ev.button == 0 then PrimaryPress(e, ev) else e
    case MouseUp => if ev.button == 0 then Release(e) else e
    case MouseDrag =>
      var d := if ev.button == 0 then PrimaryDrag(e, ev) else e;
      if ev.button == 2 then OnDrag(d, ev.delta) else d
    case ScrollWheel => e.(zoom := OnZoom(e.zoom, ev.delta.y))
    case Used => e
  }

  /** `ProcessEvents`; a right-button press opens the canvas menu. */
  function WindowEvents(e: Editor, ev: Event): (r: StepResult)
    ensures r.editor == Handle(e, ev).(selBox := FromCorners(r.editor.selStart, r.editor.selEnd))
    ensures r.menu.Some? <==> ev.kind == MouseDown && ev.button == 1
    ensures r.menu.Some? ==> r.menu.value == CanvasItems(e, ev.pos)
  {
    var e1 := Handle(e, ev);
    var menu := if ev.kind == MouseDown && ev.button == 1 then ShowMenu(CanvasItems(e, ev.pos)) else None;
    StepResult(e1.(selBox := FromCorners(e1.selStart, e1.selEnd)), menu, false)
  }

  /**
   * Everything one `OnGUI` call does with one input event: the comments
   * are drawn first, so a press inside an edited comment arrives used. When
   * drawing a node throws, nothing after `DrawNodes` runs: no handler sees
   * the event.
   */
  function Step(e: Editor, ev: Event): (r: StepResult)
    ensures r.aborted <==> exists k :: 0 <= k < |e.nodes| && e.nodes[k] in e.store && DrawThrows(e.store[e.nodes[k]], Lower(e.search))
    ensures r.aborted ==> r.menu.None? && r.editor == e.(store := r.editor.store)
  {
    var ev0 := EditFieldsTake(e.comments, ev);
    var d := DrawPass(e);
    var e0 := e.(store := d.store);
    if !d.complete then StepResult(e0, None, true)
    else if e0.commenting then
      WindowEvents(CreatingComment(e0, ev0), ev0)
    else
      var np := NodePass(e0.store, e0.nodes, ev0, |e0.nodes|);
      var cp := CommentPass(e0.comments, np.event, |e0.comments|);
      var w := WindowEvents(e0.(comments := cp.comments), cp.event);
      StepResult(w.editor, if np.menu.Some? then np.menu else if cp.menu.Some? then cp.menu else w.menu, false)
  }
}
