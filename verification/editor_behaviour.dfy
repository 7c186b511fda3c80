/**
 * What the editor window does with mouse input and link clicks
 * (NodeEditorWindow.cs `ProcessEvents`, `OnClickInPoint`,
 * `OnClickOutPoint`, `OnClickRemoveNode`).
 */
module EditorBehaviour {
  import opened Geometry
  import opened Wrappers
  import opened Text
  import opened Gui
  import opened Anchors
  import opened Links
  import opened Nodes
  import opened Editor
  import opened EditorEvents
  import Selection
  import Branch
  import EditorValid
  import Comments

  /** Node `id` is in the window and the box overlaps its rect. */
  ghost predicate IsHit(store: map<NodeId, Node>, nodes: seq<NodeId>, box: Rect, id: NodeId) {
    id in nodes && id in store && Overlaps(box, store[id].rect)
  }

  /** `sel` holds exactly the nodes the box overlaps. */
  ghost predicate SelectsHits(sel: seq<NodeId>, store: map<NodeId, Node>, nodes: seq<NodeId>, box: Rect) {
    forall id :: id in sel <==> IsHit(store, nodes, box, id)
  }

  /** `sel` holds exactly the nodes the box overlaps and those reachable from `root`. */
  ghost predicate SelectsHitsAndBranch(sel: seq<NodeId>, store: map<NodeId, Node>, nodes: seq<NodeId>,
                                       cs: seq<Connection>, box: Rect, root: NodeId, up: bool) {
    forall id :: id in sel <==> IsHit(store, nodes, box, id) || Branch.Reaches(cs, up, root, id)
  }

  /** `sel` holds exactly the old selection and the nodes the box overlaps. */
  ghost predicate SelectsOldAndHits(sel: seq<NodeId>, prior: seq<NodeId>, store: map<NodeId, Node>, nodes: seq<NodeId>, box: Rect) {
    forall id :: id in sel <==> id in prior || IsHit(store, nodes, box, id)
  }

  /** `ProcessNodes(box)` adds exactly the listed nodes the box overlaps, after the old selection. */
  lemma ProcessNodesSelects(e: Editor, box: Rect)
    requires SelectionOk(e)
    ensures e.selected <= ProcessNodes(e, box).selected
    ensures Selection.FlagsOnly(e.store, ProcessNodes(e, box).store)
    ensures SelectionOk(ProcessNodes(e, box))
    ensures SelectsOldAndHits(ProcessNodes(e, box).selected, e.selected, e.store, e.nodes, box)
  {
    Selection.ScanSpec(SelOf(e), e.nodes, box, |e.nodes|);
    assert e.nodes[..|e.nodes|] == e.nodes;
  }

  /** A single press inside a selected node keeps the selection and starts dragging it. */
  lemma PressOnSelectionStartsDrag(e: Editor, ev: Event)
    requires ev.kind == MouseDown && ev.button == 0 && ev.clickCount == 1
    requires SelectionContains(e, ev.pos)
    ensures var w := WindowEvents(e, ev).editor;
      && w.selected == e.selected && w.store == e.store
      && w.dragging && w.selBox == ZeroRect
      && w.pendingIn.None? && w.pendingOut.None?
  {
  }

  /** The window handler applies the press handler, then recomputes the box from its corners. */
  lemma PressRoute(e: Editor, ev: Event)
    requires ev.kind == MouseDown && ev.button == 0
    ensures var p := PrimaryPress(e, ev);
      WindowEvents(e, ev).editor == p.(selBox := FromCorners(p.selStart, p.selEnd))
  {
    assert Handle(e, ev) == PrimaryPress(e, ev);
  }

  /** Clearing the selection unflags every node and moves none. */
  lemma ClearedFlags(e: Editor)
    requires SelectionOk(e)
    ensures var c := ClearSelection(e);
      && SelectionOk(c) && c.selected == [] && c.store.Keys == e.store.Keys
      && forall id :: id in e.store ==> !c.store[id].selected && c.store[id].rect == e.store[id].rect
  {
    var c := ClearSelection(e);
    forall id | id in e.store
      ensures c.store[id].rect == e.store[id].rect
    {
      assert c.store[id] == e.store[id].(selected := c.store[id].selected);
    }
  }

  /** The single-press path off the selection, before the box is recomputed. */
  lemma FreshPressSelectsHits(e: Editor, pos: Vec2)
    requires SelectionOk(e)
    requires !SelectionContains(e, pos)
    ensures var p := SinglePress(e, pos);
      && SelectsHits(p.selected, e.store, e.nodes, UnitAt(pos))
      && (p.dragging <==> |p.selected| > 0)
      && (p.dragging ==> p.selStart == Zero2 && p.selEnd == Zero2)
      && (!p.dragging ==> p.selStart == pos && p.selEnd == pos)
  {
    var c := ClearSelection(e);
    ClearedFlags(e);
    var e1 := c.(dragging := false, selStart := pos, selEnd := pos, selBox := UnitAt(pos));
    ProcessNodesSelects(e1, UnitAt(pos));
    var e2 := ProcessNodes(e1, UnitAt(pos));
    forall id
      ensures IsHit(e1.store, e1.nodes, UnitAt(pos), id) <==> IsHit(e.store, e.nodes, UnitAt(pos), id)
    {
    }
  }

  /**
   * A single press anywhere else selects exactly the nodes under the
   * mouse, and turns into a drag iff there is at least one.
   */
  lemma PressElsewhereSelectsHits(e: Editor, ev: Event)
    requires Valid(e)
    requires ev.kind == MouseDown && ev.button == 0 && ev.clickCount == 1
    requires !SelectionContains(e, ev.pos)
    ensures var w := WindowEvents(e, ev).editor;
      && SelectsHits(w.selected, e.store, e.nodes, UnitAt(ev.pos))
      && (w.dragging <==> |w.selected| > 0)
      && (w.dragging ==> w.selBox == ZeroRect)
      && (!w.dragging ==> w.selStart == ev.pos && w.selEnd == ev.pos)
      && w.pendingIn.None? && w.pendingOut.None?
  {
    var e0 := ClearPending(e);
    var p := PrimaryPress(e, ev);
    var w := WindowEvents(e, ev).editor;
    PressRoute(e, ev);
    assert p == SinglePress(e0, ev.pos);
    FreshPressSelectsHits(e0, ev.pos);
    assert w.selected == p.selected && w.dragging == p.dragging;
    assert w.selStart == p.selStart && w.selEnd == p.selEnd;
  }

  /** Reselecting under the mouse selects exactly the overlapped nodes. */
  lemma PressHitsSelects(e: Editor, box: Rect)
    requires SelectionOk(e)
    ensures var h := PressHits(e, box);
      SelectsHits(h.selected, e.store, e.nodes, box) && SelectionOk(h) && Selection.FlagsOnly(e.store, h.store)
  {
    var c := ClearSelection(e);
    ClearedFlags(e);
    ProcessNodesSelects(c, box);
    forall id
      ensures IsHit(c.store, c.nodes, box, id) <==> IsHit(e.store, e.nodes, box, id)
    {
    }
  }

  /** ... and the topmost of them comes first. */
  lemma PressHitsTop(e: Editor, box: Rect)
    requires SelectionOk(e)
    ensures var h := PressHits(e, box);
      && (Selection.AnyHit(e.store, e.nodes, box) <==> |h.selected| > 0)
      && forall top :: Selection.IsTopHit(e.store, e.nodes, box, top) ==> h.selected[0] == e.nodes[top]
  {
    var c := ClearSelection(e);
    ClearedFlags(e);
    Selection.ScanFresh(SelOf(c), c.nodes, box);
    Selection.HitsFollowRects(c.store, e.store, e.nodes, box);
  }

  /** A node reached along links is in the window. */
  lemma ReachedInWindow(e: Editor, up: bool, root: NodeId, id: NodeId)
    requires LinksOk(e) && Branch.Reaches(e.connections, up, root, id)
    ensures id in e.nodes
  {
    Branch.ReachedIsTarget(e.connections, up, root, id);
    var i :| 0 <= i < |e.connections| && Branch.Next(e.connections[i], up) == id;
    assert e.connections[i] in e.connections;
  }

  /** Branch selection adds exactly the nodes reachable from the root. */
  lemma SelectBranchAdds(e: Editor, root: NodeId, up: bool)
    requires SelectionOk(e) && ListOk(e) && LinksOk(e)
    ensures forall id :: id in SelectBranch(e, root, up).selected <==>
      id in e.selected || Branch.Reaches(e.connections, up, root, id)
  {
    var p := SelectBranch(e, root, up);
    Branch.BranchMarksReachable(e.connections, up, root);
    forall id
      ensures id in p.selected <==> id in e.selected || Branch.Reaches(e.connections, up, root, id)
    {
      if Branch.Reaches(e.connections, up, root, id) {
        ReachedInWindow(e, up, root, id);
      }
      if id in e.store {
        assert e.store[id].selected <==> id in e.selected;
      }
    }
  }

  /** The multi-press path, before the box is recomputed. */
  lemma MultiPressSelects(e: Editor, pos: Vec2, up: bool)
    requires SelectionOk(e) && ListOk(e) && LinksOk(e)
    ensures var p := MultiPress(e, pos, up);
      Selection.AnyHit(e.store, e.nodes, UnitAt(pos)) <==> |p.selected| > 0
    ensures var p := MultiPress(e, pos, up);
      forall top :: Selection.IsTopHit(e.store, e.nodes, UnitAt(pos), top) ==>
        SelectsHitsAndBranch(p.selected, e.store, e.nodes, e.connections, UnitAt(pos), e.nodes[top], up)
  {
    var box := UnitAt(pos);
    var h := PressHits(e, box);
    PressHitsSelects(e, box);
    PressHitsTop(e, box);
    if |h.selected| > 0 {
      var root := h.selected[0];
      var p := SelectBranch(h, root, up);
      assert MultiPress(e, pos, up) == p;
      assert ListOk(h) && LinksOk(h);
      SelectBranchAdds(h, root, up);
      forall top | Selection.IsTopHit(e.store, e.nodes, box, top)
        ensures SelectsHitsAndBranch(p.selected, e.store, e.nodes, e.connections, box, e.nodes[top], up)
      {
        assert e.nodes[top] == root;
      }
    } else {
      assert MultiPress(e, pos, up) == h;
    }
  }

  /**
   * A double (or further) press selects every node under the mouse and
   * then the branch of the topmost one: the nodes reachable from it along
   * links, towards parents when control is held and towards children otherwise.
   */
  lemma MultiClickSelectsBranch(e: Editor, ev: Event)
    requires Valid(e)
    requires ev.kind == MouseDown && ev.button == 0 && ev.clickCount != 1
    ensures var w := WindowEvents(e, ev).editor;
      Selection.AnyHit(e.store, e.nodes, UnitAt(ev.pos)) <==> |w.selected| > 0
    ensures var w := WindowEvents(e, ev).editor;
      forall top :: Selection.IsTopHit(e.store, e.nodes, UnitAt(ev.pos), top) ==>
        SelectsHitsAndBranch(w.selected, e.store, e.nodes, e.connections, UnitAt(ev.pos), e.nodes[top], ev.control)
  {
    var e0 := ClearPending(e);
    var p := PrimaryPress(e, ev);
    var w := WindowEvents(e, ev).editor;
    PressRoute(e, ev);
    assert p == MultiPress(e0, ev.pos, ev.control);
    MultiPressSelects(e0, ev.pos, ev.control);
    assert w.selected == p.selected;
  }

  /** Every primary-button press forgets a half-made link. */
  lemma PrimaryPressClearsPending(e: Editor, ev: Event)
    requires ev.kind == MouseDown && ev.button == 0
    ensures WindowEvents(e, ev).editor.pendingIn.None? && WindowEvents(e, ev).editor.pendingOut.None?
  {
    PressRoute(e, ev);
  }

  /** Dragging the marquee only adds to the selection: it grows by the nodes under the current box. */
  lemma MarqueeOnlyGrows(e: Editor, ev: Event)
    requires Valid(e)
    requires ev.kind == MouseDrag && ev.button == 0 && !e.dragging
    ensures var w := WindowEvents(e, ev).editor;
      && e.selected <= w.selected
      && SelectsOldAndHits(w.selected, e.selected, e.store, e.nodes, e.selBox)
      && w.selEnd == ev.pos && w.selBox == FromCorners(e.selStart, ev.pos)
  {
    ProcessNodesSelects(e, e.selBox);
  }

  /** Dragging a selection moves exactly the selected nodes by the mouse's delta. */
  lemma DragMovesSelection(e: Editor, ev: Event)
    requires Valid(e)
    requires ev.kind == MouseDrag && ev.button == 0 && e.dragging
    ensures var w := WindowEvents(e, ev).editor;
      && w.selected == e.selected && w.store.Keys == e.store.Keys
      && forall id :: id in e.store ==>
           w.store[id].rect == (if id in e.selected then Translate(e.store[id].rect, ev.delta) else e.store[id].rect)
  {
  }

  /** A middle-button drag pans the canvas: every listed node and every comment moves by the delta. */
  lemma PanMovesEverything(e: Editor, ev: Event)
    requires Valid(e)
    requires ev.kind == MouseDrag && ev.button == 2
    ensures var w := WindowEvents(e, ev).editor;
      && w.selected == e.selected && |w.comments| == |e.comments|
      && (forall id :: id in e.store ==>
           w.store[id].rect == (if id in e.nodes then Translate(e.store[id].rect, ev.delta) else e.store[id].rect))
      && forall k :: 0 <= k < |e.comments| ==>
           w.comments[k].rect.Position() == Add(e.comments[k].rect.Position(), ev.delta)
  {
  }

  /** Releasing the primary button ends any drag and clears the box. */
  lemma ReleaseEndsDrag(e: Editor, ev: Event)
    requires ev.kind == MouseUp && ev.button == 0
    ensures var w := WindowEvents(e, ev).editor;
      !w.dragging && w.selBox == ZeroRect && w.selected == e.selected
  {
  }

  // ---------------------------------------------------------------- links

  /** Picking an in point and an out point of different nodes, in either order, adds the same link. */
  lemma LinkEitherOrder(e: Editor, a: Anchor, b: Anchor)
    requires e.pendingIn.None? && e.pendingOut.None? && a.owner != b.owner
    ensures ClickOutPoint(ClickInPoint(e, a), b) == e.(connections := e.connections + [Connection(a, b, true)])
    ensures ClickInPoint(ClickOutPoint(e, b), a) == e.(connections := e.connections + [Connection(a, b, true)])
  {
  }

  /** Picking both points of one node makes no link and forgets both. */
  lemma SameNodeCancels(e: Editor, a: Anchor, b: Anchor)
    requires e.pendingIn.None? && e.pendingOut.None? && a.owner == b.owner
    ensures ClickOutPoint(ClickInPoint(e, a), b) == e
    ensures ClickInPoint(ClickOutPoint(e, b), a) == e
  {
  }

  /**
   * Clicking node x's in point and then node y's out point links them,
   * when both are shown and have callbacks.
   */
  lemma AnchorClicksLink(e: Editor, x: NodeId, y: NodeId)
    requires Valid(e) && e.pendingIn.None? && e.pendingOut.None? && x != y
    requires PointsLive(e, x) && PointsLive(e, y)
    requires e.store[x].inPoint.clickable && e.store[y].outPoint.clickable
    ensures ClickAnchor(ClickAnchor(e, x, In), y, Out).connections
      == e.connections + [Connection(Anchor(x, In), Anchor(y, Out), true)]
  {
    assert WellFormed(e.store[x]) && e.store[x].id == x;
    assert WellFormed(e.store[y]) && e.store[y].id == y;
    LinkEitherOrder(e, Anchor(x, In), Anchor(y, Out));
  }

  /** Removing a node drops exactly its links, keeps the others in order, and forgets its pending points. */
  lemma RemoveNodeDropsItsLinks(e: Editor, id: NodeId, before: seq<Connection>, after: seq<Connection>)
    requires Valid(e) && id in e.nodes
    requires e.connections == before + after
    ensures var r := RemoveNode(e, id);
      && id !in r.nodes && |r.nodes| == |e.nodes| - 1
      && r.connections == FilterLinks(before, id) + FilterLinks(after, id)
      && forall c :: c in r.connections ==> c.inPoint.owner != id && c.outPoint.owner != id
  {
    FilterLinksAppend(before, after, id);
  }

  /** When no pending point is the node's, removal is the source's removal unchanged. */
  lemma RemoveNodeMatchesSource(e: Editor, id: NodeId)
    requires e.pendingIn.Some? ==> e.pendingIn.value.owner != id
    requires e.pendingOut.Some? ==> e.pendingOut.value.owner != id
    ensures RemoveNode(e, id) == RemoveNodeAsWritten(e, id)
  {
  }

  // ---------------------------------------------------------------- the search and unnamed nodes

  /** With an empty search no node's `Draw` throws, so a pass is never cut short. */
  lemma EmptySearchNeverAborts(e: Editor, ev: Event)
    requires e.search == []
    ensures !Step(e, ev).aborted
  {
    assert Lower(e.search) == [];
  }

  /**
   * A node added from the canvas menu has no name, so once the search is
   * non-empty every later pass throws while drawing it: no handler sees the
   * event, no menu opens, and nothing but the point layout changes.
   */
  lemma AddedNodeBlocksSearch(e: Editor, pos: Vec2, ev: Event)
    requires e.search != []
    ensures var e1 := AddNodeAt(e, pos);
      var r := Step(e1, ev);
      r.aborted && r.menu.None? && r.editor == e1.(store := r.editor.store)
  {
    var e1 := AddNodeAt(e, pos);
    assert |Lower(e.search)| == |e.search|;
    assert e1.nodes[|e.nodes|] == e.nextId;
    assert DrawThrows(e1.store[e1.nodes[|e.nodes|]], Lower(e1.search));
  }

  /** A drawn node's buttons stay live: a node listed before any unnamed node and shown by the search. */
  lemma PointsLiveBeforeUnnamed(e: Editor, k: nat)
    requires k < |e.nodes| && e.nodes[k] in e.store
    requires forall j :: 0 <= j <= k && e.nodes[j] in e.store ==> !DrawThrows(e.store[e.nodes[j]], Lower(e.search))
    requires Shown(e.store[e.nodes[k]], Lower(e.search))
    ensures PointsLive(e, e.nodes[k])
  {
    var d := Drawn(e.store, e.nodes, Lower(e.search));
    assert |d| > k;
    assert d[k] == e.nodes[k];
  }

  // ---------------------------------------------------------------- presses on an edited comment

  /**
   * A press inside a comment being edited is taken by its text field: in
   * either mode of the window no handler sees it, so the comment stays in
   * Edit, the pending points and the selection are kept, and no menu opens.
   */
  lemma EditedCommentTakesPress(e: Editor, ev: Event, k: nat)
    requires DrawPass(e).complete
    requires ev.kind == MouseDown
    requires k < |e.comments| && e.comments[k].state == Comments.Edit && Contains(e.comments[k].rect, ev.pos)
    ensures var r := Step(e, ev);
      && !r.aborted && r.menu.None?
      && r.editor == e.(store := DrawPass(e).store, selBox := FromCorners(e.selStart, e.selEnd))
  {
    assert EditFieldsTake(e.comments, ev) == Use(ev);
  }

  // ---------------------------------------------------------------- the pending-point defect

  /** Two fresh nodes added from the canvas menu. */
  function TwoNodes(): Editor {
    AddNodeAt(AddNodeAt(Initial(false), Zero2), Vec2(300.0, 0.0))
  }

  lemma TwoNodesFacts()
    ensures var e := TwoNodes();
      && Valid(e) && e.nodes == [0, 1] && e.search == [] && e.connections == []
      && e.pendingIn.None? && e.pendingOut.None?
      && e.store[0].name.None? && e.store[1].name.None?
      && e.store[0].inPoint.clickable && e.store[1].outPoint.clickable
  {
    InitialValid(false);
    EditorValid.AddNodeAtValid(Initial(false), Zero2);
    EditorValid.AddNodeAtValid(AddNodeAt(Initial(false), Zero2), Vec2(300.0, 0.0));
  }

  /**
   * As written, removing a node whose in point is pending leaves it pending;
   * clicking another node's out point then links to the removed node.
   */
  lemma RemoveNodeAsWrittenDangles()
    ensures Valid(TwoNodes())
    ensures var e1 := ClickAnchor(TwoNodes(), 0, In);
      var e2 := RemoveNodeAsWritten(e1, 0);
      var e3 := ClickAnchor(e2, 1, Out);
      && 0 !in e3.nodes
      && e3.connections == [Connection(Anchor(0, In), Anchor(1, Out), true)]
      && !LinksOk(e3)
  {
    TwoNodesFacts();
    var e := TwoNodes();
    var e1 := ClickAnchor(e, 0, In);
    assert e1 == e.(pendingIn := Some(Anchor(0, In)));
    var e2 := RemoveNodeAsWritten(e1, 0);
    assert e2.nodes == [1] && e2.connections == [];
    var e3 := ClickAnchor(e2, 1, Out);
    assert e3.connections == [Connection(Anchor(0, In), Anchor(1, Out), true)];
  }

  /** With the pending point forgotten, the same clicks leave no link. */
  lemma RemoveNodeScenario()
    ensures var e1 := ClickAnchor(TwoNodes(), 0, In);
      var e2 := RemoveNode(e1, 0);
      var e3 := ClickAnchor(e2, 1, Out);
      && e3.connections == [] && e3.pendingOut == Some(Anchor(1, Out))
  {
    TwoNodesFacts();
    var e := TwoNodes();
    var e1 := ClickAnchor(e, 0, In);
    assert e1 == e.(pendingIn := Some(Anchor(0, In)));
    var e2 := RemoveNode(e1, 0);
    assert e2.nodes == [1] && e2.pendingIn.None? && e2.connections == [];
  }
}
