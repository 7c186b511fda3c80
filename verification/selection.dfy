/**
 * The node editor's selection (NodeEditorWindow.cs): each node's
 * `isSelected` flag together with the `selectedNodes` list. The flags live
 * on the node objects, so a selection state is the heap plus the list.
 */
module Selection {
  import opened Geometry
  import opened Anchors
  import opened Nodes

  datatype Sel = Sel(store: map<NodeId, Node>, list: seq<NodeId>)

  predicate NoDup<T(==)>(s: seq<T>) {
    forall i, j :: 0 <= i < j < |s| ==> s[i] != s[j]
  }

  /** A node's flag is set iff it is in the list, which has no duplicates and only stored nodes. */
  predicate Ok(s: Sel) {
    && NoDup(s.list)
    && (forall k :: 0 <= k < |s.list| ==> s.list[k] in s.store)
    && (forall id :: id in s.store ==> (s.store[id].selected <==> id in s.list))
  }

  /** `b` is `a` with at most some selection flags changed. */
  predicate FlagsOnly(a: map<NodeId, Node>, b: map<NodeId, Node>) {
    a.Keys == b.Keys && forall id :: id in a ==> b[id] == a[id].(selected := b[id].selected)
  }

  function SetSelected(store: map<NodeId, Node>, id: NodeId, b: bool): (r: map<NodeId, Node>)
    ensures FlagsOnly(store, r)
    ensures forall x :: x in store ==> (r[x].selected <==> if x == id then b else store[x].selected)
  {
    if id in store then store[id := store[id].(selected := b)] else store
  }

  function Deselect(store: map<NodeId, Node>, ids: seq<NodeId>): (r: map<NodeId, Node>)
    ensures FlagsOnly(store, r)
    ensures forall id :: id in store ==> (r[id].selected <==> store[id].selected && id !in ids)
  {
    if ids == [] then store
    else Deselect(SetSelected(store, ids[0], false), ids[1..])
  }

  /** `ClearSelection`: unflag every node in the list and empty it. */
  function Clear(s: Sel): (r: Sel)
    ensures FlagsOnly(s.store, r.store) && r.list == []
    ensures forall id :: id in s.store ==> (r.store[id].selected <==> s.store[id].selected && id !in s.list)
    ensures Ok(s) ==> Ok(r) && forall id :: id in r.store ==> !r.store[id].selected
  {
    Sel(Deselect(s.store, s.list), [])
  }

  /** Flags one stored node and appends it to the list. */
  function Flag(s: Sel, id: NodeId): (r: Sel)
    requires id in s.store
    ensures FlagsOnly(s.store, r.store) && r.list == s.list + [id]
    ensures forall x :: x in s.store ==> (r.store[x].selected <==> s.store[x].selected || x == id)
    ensures Ok(s) && !s.store[id].selected ==> Ok(r)
  {
    Sel(SetSelected(s.store, id, true), s.list + [id])
  }

  /** The node at list index `k` is stored and its rect overlaps `box`. */
  predicate Hit(store: map<NodeId, Node>, nodes: seq<NodeId>, box: Rect, k: nat)
    requires k < |nodes|
  {
    nodes[k] in store && Overlaps(box, store[nodes[k]].rect)
  }

  /** The greatest index below `i` holding an unselected node that `box` overlaps, or -1. */
  function TopHit(store: map<NodeId, Node>, nodes: seq<NodeId>, box: Rect, i: nat): (r: int)
    requires i <= |nodes|
    ensures -1 <= r < i
    ensures r >= 0 ==> Hit(store, nodes, box, r) && !store[nodes[r]].selected
    ensures forall k :: r < k < i ==> !(Hit(store, nodes, box, k) && !store[nodes[k]].selected)
  {
    if i == 0 then -1
    else if Hit(store, nodes, box, i - 1) && !store[nodes[i - 1]].selected then i - 1
    else TopHit(store, nodes, box, i - 1)
  }

  /**
   * `ProcessNodes(box)` over list indices i-1 down to 0: every node the box
   * overlaps that is not yet selected is flagged and appended.
   */
  function Scan(s: Sel, nodes: seq<NodeId>, box: Rect, i: nat): (r: Sel)
    requires i <= |nodes|
    ensures s.list <= r.list
    decreases i
  {
    if i == 0 then s
    else
      var id := nodes[i - 1];
      if id in s.store && Overlaps(box, s.store[id].rect) && !s.store[id].selected then
        Scan(Flag(s, id), nodes, box, i - 1)
      else
        Scan(s, nodes, box, i - 1)
  }

  /**
   * The scan changes only flags; a node ends up flagged iff it was flagged
   * or is among the first `i` listed and overlapped by the box; and the
   * flags and the list stay in step.
   */
  lemma {:induction false} ScanSpec(s: Sel, nodes: seq<NodeId>, box: Rect, i: nat)
    requires i <= |nodes|
    ensures var r := Scan(s, nodes, box, i);
      && FlagsOnly(s.store, r.store)
      && (forall id :: id in s.store ==>
            (r.store[id].selected <==> s.store[id].selected || (id in nodes[..i] && Overlaps(box, s.store[id].rect))))
      && (Ok(s) ==> Ok(r))
    decreases i
  {
    if i > 0 {
      var id := nodes[i - 1];
      assert nodes[..i] == nodes[..i - 1] + [id];
      if id in s.store && Overlaps(box, s.store[id].rect) && !s.store[id].selected {
        ScanSpec(Flag(s, id), nodes, box, i - 1);
      } else {
        ScanSpec(s, nodes, box, i - 1);
      }
    }
  }

  /** With no unselected node under the box, the scan changes nothing. */
  lemma {:induction false} ScanNoTop(s: Sel, nodes: seq<NodeId>, box: Rect, i: nat)
    requires i <= |nodes| && TopHit(s.store, nodes, box, i) < 0
    ensures Scan(s, nodes, box, i) == s
  {
    if i > 0 {
      ScanNoTop(s, nodes, box, i - 1);
    }
  }

  /** A scan that flags node `nodes[i - 1]` first appends it first. */
  lemma ScanHead(s: Sel, nodes: seq<NodeId>, box: Rect, i: nat)
    requires 0 < i <= |nodes|
    requires nodes[i - 1] in s.store && Overlaps(box, s.store[nodes[i - 1]].rect) && !s.store[nodes[i - 1]].selected
    ensures |Scan(s, nodes, box, i).list| > |s.list| && Scan(s, nodes, box, i).list[|s.list|] == nodes[i - 1]
  {
    var s1 := Flag(s, nodes[i - 1]);
    var r := Scan(s1, nodes, box, i - 1);
    assert r.list[..|s1.list|] == s1.list;
    assert r.list[|s.list|] == s1.list[|s.list|];
  }

  /** A scan past node `nodes[i - 1]` that does not flag it goes on to the next. */
  lemma ScanSkip(s: Sel, nodes: seq<NodeId>, box: Rect, i: nat)
    requires 0 < i <= |nodes|
    requires !(nodes[i - 1] in s.store && Overlaps(box, s.store[nodes[i - 1]].rect) && !s.store[nodes[i - 1]].selected)
    ensures Scan(s, nodes, box, i) == Scan(s, nodes, box, i - 1)
    ensures TopHit(s.store, nodes, box, i) == TopHit(s.store, nodes, box, i - 1)
  {
  }

  /** The first node the scan appends is the topmost unselected node the box overlaps. */
  lemma {:induction false} ScanTop(s: Sel, nodes: seq<NodeId>, box: Rect, i: nat)
    requires i <= |nodes| && TopHit(s.store, nodes, box, i) >= 0
    ensures |Scan(s, nodes, box, i).list| > |s.list|
    ensures Scan(s, nodes, box, i).list[|s.list|] == nodes[TopHit(s.store, nodes, box, i)]
  {
    var id := nodes[i - 1];
    if id in s.store && Overlaps(box, s.store[id].rect) && !s.store[id].selected {
      ScanHead(s, nodes, box, i);
    } else {
      ScanSkip(s, nodes, box, i);
      ScanTop(s, nodes, box, i - 1);
    }
  }

  /** Some node in the list is overlapped by the box. */
  ghost predicate AnyHit(store: map<NodeId, Node>, nodes: seq<NodeId>, box: Rect) {
    exists k :: 0 <= k < |nodes| && Hit(store, nodes, box, k)
  }

  /** `top` is the greatest list index whose node the box overlaps. */
  ghost predicate IsTopHit(store: map<NodeId, Node>, nodes: seq<NodeId>, box: Rect, top: int) {
    && 0 <= top < |nodes| && Hit(store, nodes, box, top)
    && forall k :: top < k < |nodes| ==> !Hit(store, nodes, box, k)
  }

  /** Two heaps with the same rects have the same hits. */
  lemma HitsFollowRects(a: map<NodeId, Node>, b: map<NodeId, Node>, nodes: seq<NodeId>, box: Rect)
    requires a.Keys == b.Keys && forall id :: id in a ==> a[id].rect == b[id].rect
    ensures forall k :: 0 <= k < |nodes| ==> (Hit(a, nodes, box, k) <==> Hit(b, nodes, box, k))
    ensures AnyHit(a, nodes, box) <==> AnyHit(b, nodes, box)
    ensures forall top :: IsTopHit(a, nodes, box, top) <==> IsTopHit(b, nodes, box, top)
  {
  }

  /**
   * On a heap with nothing flagged, the scan appends something iff the box
   * overlaps some node, and the first node appended is the topmost one.
   */
  lemma ScanFresh(s: Sel, nodes: seq<NodeId>, box: Rect)
    requires forall id :: id in s.store ==> !s.store[id].selected
    ensures var r := Scan(s, nodes, box, |nodes|);
      && (AnyHit(s.store, nodes, box) <==> |r.list| > |s.list|)
      && forall top :: IsTopHit(s.store, nodes, box, top) ==> r.list[|s.list|] == nodes[top]
  {
    var t := TopHit(s.store, nodes, box, |nodes|);
    if t < 0 {
      ScanNoTop(s, nodes, box, |nodes|);
    } else {
      ScanTop(s, nodes, box, |nodes|);
      forall top | IsTopHit(s.store, nodes, box, top)
        ensures top == t
      {
      }
    }
  }

  /** `SelectionContains`: the point is inside some selected node's rect. */
  predicate Contains(s: Sel, p: Vec2) {
    exists k :: 0 <= k < |s.list| && s.list[k] in s.store && Geometry.Contains(s.store[s.list[k]].rect, p)
  }

  /** Marks one node selected, appending it unless already listed (one step of `SelectBranch`). */
  function Mark(s: Sel, m: NodeId): (r: Sel)
    ensures FlagsOnly(s.store, r.store)
    ensures forall x :: x in s.store ==> (r.store[x].selected <==> s.store[x].selected || x == m)
    ensures s.list <= r.list
    ensures forall x :: x in r.list ==> x in s.list || (x == m && m in s.store)
    ensures Ok(s) ==> Ok(r)
  {
    if m !in s.store then s
    else if m in s.list then Sel(SetSelected(s.store, m, true), s.list)
    else Flag(s, m)
  }

  /** Marks each node of `ms` in turn. */
  function ApplyMarks(s: Sel, ms: seq<NodeId>): (r: Sel)
    ensures FlagsOnly(s.store, r.store)
    ensures forall id :: id in s.store ==> (r.store[id].selected <==> s.store[id].selected || id in ms)
    ensures s.list <= r.list
    ensures Ok(s) ==> Ok(r)
    decreases |ms|
  {
    if ms == [] then s
    else ApplyMarks(Mark(s, ms[0]), ms[1..])
  }
}
