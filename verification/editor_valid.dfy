/**
 * The editor's well-formedness invariant `Editor.Valid` holds initially and
 * is kept by every event and every menu command.
 */
module EditorValid {
  import opened Geometry
  import opened Wrappers
  import opened Text
  import opened Gui
  import opened Anchors
  import opened Links
  import opened Nodes
  import opened Editor
  import opened EditorEvents
  import Selection
  import C = Comments

  /** A change of selection flags and list that keeps the selection consistent keeps `Valid`. */
  lemma WithSelValid(e: Editor, s: Selection.Sel)
    requires Valid(e) && Selection.FlagsOnly(e.store, s.store) && Selection.Ok(s)
    ensures Valid(WithSel(e, s))
  {
    var r := WithSel(e, s);
    forall id | id in r.store
      ensures r.store[id].id == id && WellFormed(r.store[id]) && id < r.nextId
    {
      assert r.store[id] == e.store[id].(selected := r.store[id].selected);
    }
  }

  lemma ClearSelectionValid(e: Editor)
    requires Valid(e)
    ensures Valid(ClearSelection(e))
    ensures forall id :: id in ClearSelection(e).store ==> !ClearSelection(e).store[id].selected
  {
    WithSelValid(e, Selection.Clear(SelOf(e)));
  }

  lemma ProcessNodesValid(e: Editor, box: Rect)
    requires Valid(e)
    ensures Valid(ProcessNodes(e, box))
  {
    Selection.ScanSpec(SelOf(e), e.nodes, box, |e.nodes|);
    WithSelValid(e, Selection.Scan(SelOf(e), e.nodes, box, |e.nodes|));
  }

  lemma SelectBranchValid(e: Editor, root: NodeId, up: bool)
    requires Valid(e)
    ensures Valid(SelectBranch(e, root, up))
  {
    WithSelValid(e, Selection.ApplyMarks(SelOf(e), Branch.BranchMarks(e.connections, up, root)));
  }

  /** Replacing stored nodes by ones with the same id, points and flag keeps `Valid`. */
  lemma SameNodesValid(e: Editor, store: map<NodeId, Node>)
    requires Valid(e) && store.Keys == e.store.Keys
    requires forall id :: id in store ==>
      store[id].id == e.store[id].id && store[id].inPoint.Ref() == e.store[id].inPoint.Ref()
      && store[id].outPoint.Ref() == e.store[id].outPoint.Ref() && store[id].selected == e.store[id].selected
    ensures Valid(e.(store := store))
  {
  }

  /** Moving nodes changes only rects, which no part of `Valid` mentions. */
  lemma DragAllValid(e: Editor, ids: seq<NodeId>, d: Vec2)
    requires Valid(e)
    ensures Valid(e.(store := DragAll(e.store, ids, d)))
  {
    var store := DragAll(e.store, ids, d);
    forall id | id in store
      ensures store[id].id == e.store[id].id && store[id].selected == e.store[id].selected
      ensures store[id].inPoint == e.store[id].inPoint && store[id].outPoint == e.store[id].outPoint
    {
      assert store[id] == e.store[id].(rect := store[id].rect);
    }
    SameNodesValid(e, store);
  }

  lemma OnDragValid(e: Editor, d: Vec2)
    requires Valid(e)
    ensures Valid(OnDrag(e, d))
  {
    DragAllValid(e, e.nodes, d);
    var r := OnDrag(e, d);
    forall k | 0 <= k < |r.comments|
      ensures r.comments[k].id < r.nextId
    {
      assert r.comments[k] == C.DragBy(e.comments[k], d);
    }
  }

  /** Laying out points keeps their owners, so `Valid` is untouched. */
  lemma DrawPassValid(e: Editor)
    requires Valid(e)
    ensures Valid(e.(store := DrawPass(e).store))
  {
    var store := DrawPass(e).store;
    forall id | id in store
      ensures store[id].id == e.store[id].id && store[id].selected == e.store[id].selected
    {
      assert store[id].(inPoint := e.store[id].inPoint, outPoint := e.store[id].outPoint) == e.store[id];
    }
    SameNodesValid(e, store);
  }

  lemma CreateCommentValid(e: Editor, rect: Rect, text: string)
    requires Valid(e)
    ensures Valid(CreateComment(e, rect, text))
  {
    var r := CreateComment(e, rect, text);
    forall k | 0 <= k < |r.comments|
      ensures r.comments[k].id < r.nextId
    {
      if k < |e.comments| {
        assert r.comments[k] == e.comments[k];
      }
    }
  }

  /** Comment handlers keep each comment's identity. */
  lemma CommentsReplacedValid(e: Editor, cs: seq<C.Comment>)
    requires Valid(e) && |cs| == |e.comments|
    requires forall k :: 0 <= k < |cs| ==> cs[k].id == e.comments[k].id
    ensures Valid(e.(comments := cs))
  {
  }

  lemma CreatingCommentValid(e: Editor, ev: Event)
    requires Valid(e)
    ensures Valid(CreatingComment(e, ev))
  {
    if ev.kind == MouseUp {
      CreateCommentValid(e, FromCorners(e.startInput, e.endInput), "Comment");
    }
  }

  lemma PressHitsValid(e: Editor, box: Rect)
    requires Valid(e)
    ensures Valid(PressHits(e, box))
  {
    ClearSelectionValid(e);
    ProcessNodesValid(ClearSelection(e), box);
  }

  lemma SinglePressValid(e: Editor, pos: Vec2)
    requires Valid(e)
    ensures Valid(SinglePress(e, pos))
  {
    if !SelectionContains(e, pos) {
      ClearSelectionValid(e);
      var e1 := ClearSelection(e).(dragging := false, selStart := pos, selEnd := pos, selBox := UnitAt(pos));
      ProcessNodesValid(e1, e1.selBox);
    }
  }

  lemma MultiPressValid(e: Editor, pos: Vec2, up: bool)
    requires Valid(e)
    ensures Valid(MultiPress(e, pos, up))
  {
    PressHitsValid(e, UnitAt(pos));
    var e2 := PressHits(e, UnitAt(pos));
    if |e2.selected| > 0 {
      SelectBranchValid(e2, e2.selected[0], up);
    }
  }

  lemma PrimaryPressValid(e: Editor, ev: Event)
    requires Valid(e)
    ensures Valid(PrimaryPress(e, ev))
  {
    var e0 := ClearPending(e);
    assert Valid(e0);
    if ev.clickCount == 1 {
      SinglePressValid(e0, ev.pos);
    } else {
      MultiPressValid(e0, ev.pos, ev.control);
    }
  }

  lemma PrimaryDragValid(e: Editor, ev: Event)
    requires Valid(e)
    ensures Valid(PrimaryDrag(e, ev))
  {
    if !e.dragging {
      ProcessNodesValid(e, e.selBox);
    } else {
      DragAllValid(e, e.selected, ev.delta);
    }
  }

  lemma HandleValid(e: Editor, ev: Event)
    requires Valid(e)
    ensures Valid(Handle(e, ev))
  {
    if ev.kind == MouseDown && ev.button == 0 {
      PrimaryPressValid(e, ev);
    } else if ev.kind == MouseDrag {
      var d := if ev.button == 0 then PrimaryDrag(e, ev) else e;
      if ev.button == 0 { PrimaryDragValid(e, ev); }
      if ev.button == 2 { OnDragValid(d, ev.delta); }
    }
  }

  lemma WindowEventsValid(e: Editor, ev: Event)
    requires Valid(e)
    ensures Valid(WindowEvents(e, ev).editor)
  {
    HandleValid(e, ev);
  }

  /** Every event keeps the invariant: in particular the zoom stays within [0.25, 1.25]. */
  lemma StepValid(e: Editor, ev: Event)
    requires Valid(e)
    ensures Valid(Step(e, ev).editor)
    ensures MinZoom <= Step(e, ev).editor.zoom <= MaxZoom
  {
    var ev0 := EditFieldsTake(e.comments, ev);
    var d := DrawPass(e);
    var e0 := e.(store := d.store);
    DrawPassValid(e);
    if !d.complete {
    } else if e0.commenting {
      CreatingCommentValid(e0, ev0);
      WindowEventsValid(CreatingComment(e0, ev0), ev0);
    } else {
      var np := NodePass(e0.store, e0.nodes, ev0, |e0.nodes|);
      var cp := CommentPass(e0.comments, np.event, |e0.comments|);
      CommentsReplacedValid(e0, cp.comments);
      WindowEventsValid(e0.(comments := cp.comments), cp.event);
    }
  }

  /** Removing a node keeps every remaining link and pending point on nodes still in the window. */
  lemma RemoveNodeValid(e: Editor, id: NodeId)
    requires Valid(e)
    ensures Valid(RemoveNode(e, id))
  {
    var r := RemoveNode(e, id);
    forall k | 0 <= k < |r.nodes|
      ensures r.nodes[k] in r.store
    {
      assert r.nodes[k] in e.nodes;
    }
    forall c | c in r.connections
      ensures c.inPoint.owner in r.nodes && c.outPoint.owner in r.nodes
    {
      assert c in e.connections && !Touches(c, id);
    }
  }

  lemma ClickInPointValid(e: Editor, a: Anchor)
    requires Valid(e) && a.kind == In && a.owner in e.nodes
    ensures Valid(ClickInPoint(e, a))
  {
  }

  lemma ClickOutPointValid(e: Editor, a: Anchor)
    requires Valid(e) && a.kind == Out && a.owner in e.nodes
    ensures Valid(ClickOutPoint(e, a))
  {
  }

  lemma ClickAnchorValid(e: Editor, id: NodeId, kind: Kind)
    requires Valid(e)
    ensures Valid(ClickAnchor(e, id, kind))
  {
    if PointsLive(e, id) {
      var n := e.store[id];
      assert WellFormed(n) && n.id == id;
      var p := if kind == In then n.inPoint else n.outPoint;
      if p.clickable {
        if kind == In {
          ClickInPointValid(e, Anchor(id, In));
        } else {
          ClickOutPointValid(e, Anchor(id, Out));
        }
      }
    }
  }

  lemma ClickConnectionHandleValid(e: Editor, i: nat)
    requires Valid(e)
    ensures Valid(ClickConnectionHandle(e, i))
  {
  }

  lemma AddNodeAtValid(e: Editor, pos: Vec2)
    requires Valid(e)
    ensures Valid(AddNodeAt(e, pos))
  {
    var r := AddNodeAt(e, pos);
    assert e.nextId !in e.store;
    assert e.nextId !in e.nodes;
    forall k | 0 <= k < |r.comments|
      ensures r.comments[k].id < r.nextId
    {
    }
  }

  lemma OnClickCreateCommentValid(e: Editor)
    requires Valid(e)
    ensures Valid(OnClickCreateComment(e))
  {
    if |e.selected| > 0 {
      var first := if e.selected[0] in e.store then e.store[e.selected[0]].rect else ZeroRect;
      CreateCommentValid(e, WrapAll(e.store, e.selected, first), "New Comment");
    }
  }

  lemma RemoveCommentValid(e: Editor, cid: nat)
    requires Valid(e)
    ensures Valid(RemoveComment(e, cid))
  {
    var r := RemoveComment(e, cid);
    forall k | 0 <= k < |r.comments|
      ensures r.comments[k].id < r.nextId
    {
      assert r.comments[k] in e.comments;
    }
  }

  /** Every context-menu command keeps the invariant, node removal being the model's `RemoveNode`. */
  lemma ChooseValid(e: Editor, item: MenuItem)
    requires Valid(e)
    ensures Valid(Choose(e, item))
  {
    match item {
      case AddNodeItem(pos) => AddNodeAtValid(e, pos);
      case CreateCommentItem => OnClickCreateCommentValid(e);
      case RemoveNodeItem(id) => RemoveNodeValid(e, id);
      case RemoveCommentItem(cid) => RemoveCommentValid(e, cid);
      case ShowInProjectItem(_) =>
    }
  }
}
