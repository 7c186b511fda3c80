/**
 * Saving and restoring the assembly view's layout (`SaveNodes` and
 * `LoadNodes` in AssemblyViewer.cs). Saving records every node of the
 * window and every comment; loading moves each window node whose name was
 * saved to the first rect saved under that name and recreates the saved
 * comments. The XML file itself is left to the caller: a missing file is
 * None, an existing one is the `Saved` record read from it. A window node
 * without a name makes loading throw (`Dictionary.ContainsKey(null)`).
 */
module SavedLayout {
  import opened Wrappers
  import opened Geometry
  import opened Anchors
  import opened Nodes
  import opened Editor
  import opened NodesData
  import C = Comments

  /** The window's nodes as objects, in list order (`window.Nodes`). */
  function WindowNodes(e: Editor): (ns: seq<Node>)
    requires forall k :: 0 <= k < |e.nodes| ==> e.nodes[k] in e.store
    ensures |ns| == |e.nodes|
    ensures forall k :: 0 <= k < |ns| ==> ns[k] == e.store[e.nodes[k]]
  {
    seq(|e.nodes|, k requires 0 <= k < |e.nodes| => e.store[e.nodes[k]])
  }

  /** `SaveNodes`: the record written to the layout file. */
  function SaveData(e: Editor, fmt: real -> string): (d: Saved)
    requires forall k :: 0 <= k < |e.nodes| ==> e.nodes[k] in e.store
    ensures |d.nodes| == |e.nodes| && |d.comments| == |e.comments|
    ensures forall k :: 0 <= k < |e.nodes| ==>
      d.nodes[k].name == e.store[e.nodes[k]].name.GetOr("") && d.nodes[k].rect == RectString(e.store[e.nodes[k]].rect, fmt)
    ensures forall k :: 0 <= k < |e.comments| ==>
      d.comments[k].name == e.comments[k].text && d.comments[k].rect == RectString(e.comments[k].rect, fmt)
  {
    SetData(WindowNodes(e), e.comments, fmt)
  }

  // ------------------------------------------------------------ the name table

  /**
   * The `dataNodes` dictionary after the loop over the saved node entries:
   * an entry is added only when its name is not yet a key.
   */
  function Collect(entries: seq<NodeData>, parse: string -> Option<real>): (r: map<string, Rect>)
    ensures forall name :: name in r <==> exists k :: 0 <= k < |entries| && entries[k].name == name
    decreases |entries|
  {
    if entries == [] then map[]
    else
      var m := Collect(entries[..|entries| - 1], parse);
      var last := entries[|entries| - 1];
      assert forall k :: 0 <= k < |entries| - 1 ==> entries[..|entries| - 1][k] == entries[k];
      if last.name in m then m else m[last.name := GetRect(last, parse)]
  }

  /** The first entry with a name decides its rect; later entries with that name are ignored. */
  lemma {:induction false} CollectFirst(entries: seq<NodeData>, parse: string -> Option<real>, k: nat)
    requires k < |entries|
    requires forall j :: 0 <= j < k ==> entries[j].name != entries[k].name
    ensures entries[k].name in Collect(entries, parse)
    ensures Collect(entries, parse)[entries[k].name] == GetRect(entries[k], parse)
    decreases |entries|
  {
    var init := entries[..|entries| - 1];
    if k < |entries| - 1 {
      assert init[k] == entries[k];
      forall j | 0 <= j < k
        ensures init[j].name != init[k].name
      {
        assert init[j] == entries[j];
      }
      CollectFirst(init, parse, k);
    } else {
      forall j | 0 <= j < |init|
        ensures init[j].name != entries[k].name
      {
        assert init[j] == entries[j];
      }
    }
  }

  // ------------------------------------------------------------ applying rects

  /** The heap after the rect loop, and whether the loop ran to the end. */
  datatype Applied = Applied(store: map<NodeId, Node>, complete: bool)

  /**
   * The loop over `window.Nodes`: a node whose name is a key takes the
   * saved rect; a node without a name throws, and the nodes before it keep
   * their new rects. The list holds node objects, so an id missing from
   * the heap is passed over.
   */
  function ApplyRects(store: map<NodeId, Node>, ids: seq<NodeId>, rects: map<string, Rect>): (r: Applied)
    ensures r.store.Keys == store.Keys
    ensures r.complete <==> Named(store, ids)
    decreases |ids|
  {
    if ids == [] then Applied(store, true)
    else
      var id := ids[0];
      if id in store && store[id].name.None? then Applied(store, false)
      else
        var s := if id in store && store[id].name.value in rects
          then store[id := store[id].(rect := rects[store[id].name.value])] else store;
        var r := ApplyRects(s, ids[1..], rects);
        assert Named(s, ids[1..]) <==> Named(store, ids[1..]) by {
          assert forall x :: x in store ==> x in s && s[x].name == store[x].name;
        }
        assert Named(store, ids) <==> (id in store ==> store[id].name.Some?) && Named(store, ids[1..]) by {
          assert forall k :: 1 <= k < |ids| ==> ids[k] == ids[1..][k - 1];
        }
        r
  }

  /**
   * When every listed node has a name, each listed node whose name was
   * saved now sits at the saved rect and is otherwise unchanged; every other
   * node is untouched.
   */
  lemma {:induction false} ApplyRectsSpec(store: map<NodeId, Node>, ids: seq<NodeId>, rects: map<string, Rect>, id: NodeId)
    requires id in store && Named(store, ids)
    ensures var r := ApplyRects(store, ids, rects);
      r.store[id] == if id in ids && store[id].name.value in rects
        then store[id].(rect := rects[store[id].name.value]) else store[id]
    decreases |ids|
  {
    if ids != [] {
      var x := ids[0];
      var s := if x in store && store[x].name.value in rects
        then store[x := store[x].(rect := rects[store[x].name.value])] else store;
      assert Named(s, ids[1..]) by {
        assert forall k :: 1 <= k < |ids| ==> ids[k] == ids[1..][k - 1];
        assert forall y :: y in store ==> y in s && s[y].name == store[y].name;
      }
      ApplyRectsSpec(s, ids[1..], rects, id);
      assert id in ids <==> id == x || id in ids[1..] by {
        assert ids == [x] + ids[1..];
      }
    }
  }

  // ------------------------------------------------------------ comments

  /**
   * The loop over the saved comments: one `CreateComment(GetRect(), name)`
   * per entry, `read` being `GetRect` with the number parser fixed.
   */
  function AddComments(e: Editor, entries: seq<NodeData>, read: NodeData -> Rect): (r: Editor)
    ensures r == e.(comments := r.comments, nextId := r.nextId)
    decreases |entries|
  {
    if entries == [] then e
    else AddComments(CreateComment(e, read(entries[0]), entries[0].name), entries[1..], read)
  }

  /** The comments the saved entries stand for, numbered from `n0`. */
  function Recreated(entries: seq<NodeData>, n0: nat, read: NodeData -> Rect): (cs: seq<C.Comment>)
    ensures |cs| == |entries|
  {
    seq(|entries|, k requires 0 <= k < |entries| =>
      C.Comment(n0 + k, read(entries[k]), entries[k].name, C.None, true))
  }

  lemma RecreatedCons(entries: seq<NodeData>, n0: nat, read: NodeData -> Rect)
    requires entries != []
    ensures Recreated(entries, n0, read) ==
      [C.Comment(n0, read(entries[0]), entries[0].name, C.None, true)] + Recreated(entries[1..], n0 + 1, read)
  {
    var r := Recreated(entries, n0, read);
    var t := Recreated(entries[1..], n0 + 1, read);
    forall k | 1 <= k < |entries|
      ensures r[k] == t[k - 1]
    {
      assert entries[1..][k - 1] == entries[k];
    }
  }

  /**
   * The comments come back in saved order, after the window's own ones,
   * with consecutive fresh ids, each with its saved text and read rect.
   */
  lemma {:induction false} AddCommentsSpec(e: Editor, entries: seq<NodeData>, read: NodeData -> Rect)
    ensures var r := AddComments(e, entries, read);
      && r.nextId == e.nextId + |entries|
      && r.comments == e.comments + Recreated(entries, e.nextId, read)
    decreases |entries|
  {
    if entries != [] {
      var c0 := C.Comment(e.nextId, read(entries[0]), entries[0].name, C.None, true);
      var e1 := CreateComment(e, read(entries[0]), entries[0].name);
      AddCommentsSpec(e1, entries[1..], read);
      RecreatedCons(entries, e.nextId, read);
      assert e1.comments == e.comments + [c0];
      assert e.comments + [c0] + Recreated(entries[1..], e1.nextId, read) == e.comments + Recreated(entries, e.nextId, read);
    }
  }

  // ------------------------------------------------------------ loading

  /** `NodeData.GetRect` with the number parser fixed. */
  function ReadRect(parse: string -> Option<real>): NodeData -> Rect {
    d => GetRect(d, parse)
  }

  /** The window after loading, and whether loading threw. */
  datatype Loaded = Loaded(editor: Editor, failed: bool)

  /**
   * `LoadNodes`: nothing happens without a file; otherwise the window's
   * nodes take the saved rects, then the saved comments are added. A window
   * node without a name stops it before any comment is added.
   */
  function LoadNodes(e: Editor, file: Option<Saved>, parse: string -> Option<real>): (r: Loaded)
    ensures file.None? ==> r == Loaded(e, false)
    ensures r.failed <==> file.Some? && !Named(e.store, e.nodes)
    ensures r.failed ==> r.editor == e.(store := r.editor.store)
    ensures r.editor.nodes == e.nodes && r.editor.connections == e.connections && r.editor.selected == e.selected
    ensures r.editor.store.Keys == e.store.Keys
  {
    match file
    case None => Loaded(e, false)
    case Some(d) =>
      var a := ApplyRects(e.store, e.nodes, Collect(d.nodes, parse));
      if !a.complete then Loaded(e.(store := a.store), true)
      else Loaded(AddComments(e.(store := a.store), d.comments, ReadRect(parse)), false)
  }

  /**
   * After loading, a window node whose name was saved sits at the rect of
   * the first entry saved under that name; any other node is unchanged.
   */
  lemma LoadMovesNamed(e: Editor, d: Saved, parse: string -> Option<real>, id: NodeId, k: nat)
    requires Named(e.store, e.nodes)
    requires id in e.store && id in e.nodes
    requires k < |d.nodes| && e.store[id].name == Some(d.nodes[k].name)
    requires forall j :: 0 <= j < k ==> d.nodes[j].name != d.nodes[k].name
    ensures LoadNodes(e, Some(d), parse).editor.store[id] == e.store[id].(rect := GetRect(d.nodes[k], parse))
  {
    var rects := Collect(d.nodes, parse);
    CollectFirst(d.nodes, parse, k);
    ApplyRectsSpec(e.store, e.nodes, rects, id);
  }

  /** A node that is not in the window's list, or whose name was never saved, keeps its rect. */
  lemma LoadKeepsUnnamed(e: Editor, d: Saved, parse: string -> Option<real>, id: NodeId)
    requires Named(e.store, e.nodes)
    requires id in e.store
    requires id !in e.nodes || forall k :: 0 <= k < |d.nodes| ==> e.store[id].name != Some(d.nodes[k].name)
    ensures LoadNodes(e, Some(d), parse).editor.store[id] == e.store[id]
  {
    ApplyRectsSpec(e.store, e.nodes, Collect(d.nodes, parse), id);
  }

  /** Loading appends one comment per saved comment, in order, and keeps the window's own. */
  lemma LoadAddsComments(e: Editor, d: Saved, parse: string -> Option<real>)
    requires Named(e.store, e.nodes)
    ensures var r := LoadNodes(e, Some(d), parse).editor;
      && r.nextId == e.nextId + |d.comments|
      && |r.comments| == |e.comments| + |d.comments|
      && r.comments[..|e.comments|] == e.comments
      && (forall k :: 0 <= k < |d.comments| ==>
            r.comments[|e.comments| + k] == C.Comment(e.nextId + k, GetRect(d.comments[k], parse), d.comments[k].name, C.None, true))
  {
    var e1 := e.(store := ApplyRects(e.store, e.nodes, Collect(d.nodes, parse)).store);
    AddCommentsSpec(e1, d.comments, ReadRect(parse));
    var r := LoadNodes(e, Some(d), parse).editor;
    assert r.comments == e.comments + Recreated(d.comments, e.nextId, ReadRect(parse));
    forall k | 0 <= k < |d.comments|
      ensures r.comments[|e.comments| + k] == C.Comment(e.nextId + k, GetRect(d.comments[k], parse), d.comments[k].name, C.None, true)
    {
      assert r.comments[|e.comments| + k] == Recreated(d.comments, e.nextId, ReadRect(parse))[k];
    }
  }

  // ------------------------------------------------------------ round trip

  /** Nodes of the window that share a name also share a rect (true when names are distinct). */
  predicate NamesAgree(e: Editor)
    requires forall k :: 0 <= k < |e.nodes| ==> e.nodes[k] in e.store
  {
    forall j, k :: 0 <= j < |e.nodes| && 0 <= k < |e.nodes| && e.store[e.nodes[j]].name == e.store[e.nodes[k]].name ==>
      e.store[e.nodes[j]].rect == e.store[e.nodes[k]].rect
  }

  /** The earliest position in the list holding a node of the given name. */
  lemma FirstOfName(e: Editor, i: nat) returns (k: nat)
    requires forall k :: 0 <= k < |e.nodes| ==> e.nodes[k] in e.store
    requires i < |e.nodes|
    ensures k <= i && e.store[e.nodes[k]].name == e.store[e.nodes[i]].name
    ensures forall j :: 0 <= j < k ==> e.store[e.nodes[j]].name != e.store[e.nodes[i]].name
  {
    k := i;
    while exists j :: 0 <= j < k && e.store[e.nodes[j]].name == e.store[e.nodes[i]].name
      invariant k <= i && e.store[e.nodes[k]].name == e.store[e.nodes[i]].name
      decreases k
    {
      var j :| 0 <= j < k && e.store[e.nodes[j]].name == e.store[e.nodes[i]].name;
      k := j;
    }
  }

  /**
   * Loading what was just saved, when every window node has a name and
   * nodes sharing a name share a rect: loading succeeds, each window node
   * takes its own rect as the number format reads it back, and keeps it
   * exactly when parsing undoes formatting; nodes outside the list stay.
   */
  lemma SaveThenLoad(e: Editor, fmt: real -> string, parse: string -> Option<real>, id: NodeId)
    requires forall k :: 0 <= k < |e.nodes| ==> e.nodes[k] in e.store
    requires forall k :: 0 <= k < |e.nodes| ==> PrintsPlain(e.store[e.nodes[k]].rect, fmt)
    requires Named(e.store, e.nodes) && NamesAgree(e) && id in e.store
    ensures var r := LoadNodes(e, Some(SaveData(e, fmt)), parse);
      && !r.failed
      && r.editor.store[id] ==
           if id in e.nodes then e.store[id].(rect := Reparsed(e.store[id].rect, fmt, parse)) else e.store[id]
    ensures id in e.nodes && Exact(e.store[id].rect, fmt, parse) ==>
      LoadNodes(e, Some(SaveData(e, fmt)), parse).editor.store[id] == e.store[id]
  {
    var d := SaveData(e, fmt);
    SaveThenReadRects(WindowNodes(e), e.comments, fmt, parse);
    if id in e.nodes {
      var i :| 0 <= i < |e.nodes| && e.nodes[i] == id;
      var k := FirstOfName(e, i);
      assert e.store[e.nodes[k]].name.Some?;
      LoadMovesNamed(e, d, parse, id, k);
      assert Reparsed(e.store[id].rect, fmt, parse) == Reparsed(e.store[e.nodes[k]].rect, fmt, parse);
    } else {
      LoadKeepsUnnamed(e, d, parse, id);
    }
  }

  /**
   * Loading what was just saved recreates each comment after the window's
   * own, with its text and its rect as the number format reads it back.
   */
  lemma SaveThenLoadComments(e: Editor, fmt: real -> string, parse: string -> Option<real>, k: nat)
    requires forall k :: 0 <= k < |e.nodes| ==> e.nodes[k] in e.store
    requires Named(e.store, e.nodes)
    requires k < |e.comments| && PrintsPlain(e.comments[k].rect, fmt)
    ensures var r := LoadNodes(e, Some(SaveData(e, fmt)), parse);
      && !r.failed
      && |r.editor.comments| == 2 * |e.comments|
      && r.editor.comments[|e.comments| + k].rect == Reparsed(e.comments[k].rect, fmt, parse)
      && r.editor.comments[|e.comments| + k].text == e.comments[k].text
    ensures Exact(e.comments[k].rect, fmt, parse) ==>
      LoadNodes(e, Some(SaveData(e, fmt)), parse).editor.comments[|e.comments| + k].rect == e.comments[k].rect
  {
    var d := SaveData(e, fmt);
    SaveThenReadRects(WindowNodes(e), e.comments, fmt, parse);
    LoadAddsComments(e, d, parse);
  }
}
