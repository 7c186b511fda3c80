/** Graph nodes (Node.cs). */
module Nodes {
  import opened Geometry
  import opened Wrappers
  import opened Text
  import opened Gui
  import opened Anchors
  import opened Reflection

  /** A plain editor node, or a type node (TypeNode.cs) with its body style and reflected type. */
  datatype NodeKind = Plain | Typed(style: string, reference: TypeInfo)

  datatype Node = Node(
    id: NodeId,
    name: Option<string>,
    rect: Rect,
    selected: bool,
    inPoint: Point,
    outPoint: Point,
    removable: bool,
    kind: NodeKind)
  {
    function InRef(): Anchor { Anchor(id, In) }
    function OutRef(): Anchor { Anchor(id, Out) }
  }

  /** Both points are owned by the node, one of each kind. */
  predicate WellFormed(n: Node) {
    n.inPoint.Ref() == n.InRef() && n.outPoint.Ref() == n.OutRef()
  }

  /** `new Node()`: 200x40 at the origin, no callbacks, and no name (null). */
  function NewDefault(id: NodeId): (n: Node)
    ensures WellFormed(n) && n.id == id && !n.selected && n.kind == Plain
    ensures n.rect == Rect(0.0, 0.0, 200.0, 40.0)
    ensures !n.inPoint.clickable && !n.outPoint.clickable && !n.removable
    ensures n.name.None?
  {
    Node(id, None, Rect(0.0, 0.0, 200.0, 40.0), false,
         NewPoint(id, In, false), NewPoint(id, Out, false), false, Plain)
  }

  /**
   * `new Node(position, width, height, onIn, onOut, onRemove)`; the flags
   * say whether the point callbacks and the remove callback are non-null.
   * This constructor does not set the name either.
   */
  function NewAt(id: NodeId, pos: Vec2, width: real, height: real, pointCallbacks: bool, removable: bool): (n: Node)
    ensures WellFormed(n) && n.id == id && !n.selected && n.kind == Plain
    ensures n.rect.Position() == pos && n.rect.Size() == Vec2(width, height)
    ensures n.inPoint.clickable == pointCallbacks && n.outPoint.clickable == pointCallbacks
    ensures n.removable == removable
    ensures n.name.None?
  {
    Node(id, None, Rect(pos.x, pos.y, width, height), false,
         NewPoint(id, In, pointCallbacks), NewPoint(id, Out, pointCallbacks), removable, Plain)
  }

  /** `Drag`: moves the rect by the delta and touches nothing else. */
  function Drag(n: Node, d: Vec2): (m: Node)
    ensures m.rect.Position() == Add(n.rect.Position(), d)
    ensures m.rect.Size() == n.rect.Size()
    ensures m.(rect := n.rect) == n
  {
    n.(rect := Translate(n.rect, d))
  }

  /** Dragging back by the opposite delta restores the node. */
  lemma DragInverse(n: Node, d: Vec2)
    ensures Drag(Drag(n, d), Neg(d)) == n
  {
    TranslateInverse(n.rect, d);
  }

  /**
   * The search test in `Draw`; `search` is what the window passes, already
   * lowercased. The body is drawn iff the test holds.
   */
  predicate ShowsBody(name: string, search: string) {
    search == [] || IsSubstring(search, Lower(name)) || IsSubstring(Lower(name), search)
  }

  /** The test ignores the case of the node name, and an exact (lowercase) match always shows. */
  lemma ShowsBodyCaseInsensitive(name: string, search: string)
    ensures ShowsBody(Lower(name), search) == ShowsBody(name, search)
    ensures ShowsBody(name, Lower(name))
  {
    LowerIdempotent(name);
    var l := Lower(name);
    assert OccursAt(l, l, 0);
  }

  /**
   * `Draw` lowercases the name only when the search is non-empty; on a node
   * without a name that call throws a NullReferenceException.
   */
  predicate DrawThrows(n: Node, search: string) {
    search != [] && n.name.None?
  }

  /** `Draw` draws the body and both points: the search is empty or the name passes the test. */
  predicate Shown(n: Node, search: string) {
    search == [] || (n.name.Some? && ShowsBody(n.name.value, search))
  }

  /**
   * The drawing side effect of `Draw`: a shown node lays out both its
   * points; None is the exception thrown for a node without a name.
   */
  function DrawLayout(n: Node, search: string): (m: Option<Node>)
    ensures m.None? <==> DrawThrows(n, search)
    ensures m.Some? ==> m.value.(inPoint := n.inPoint, outPoint := n.outPoint) == n
    ensures m.Some? && Shown(n, search) ==>
      m.value.inPoint.rect.Center() == EdgeMidpoint(n.rect, n.inPoint.kind) &&
      m.value.outPoint.rect.Center() == EdgeMidpoint(n.rect, n.outPoint.kind)
    ensures m.Some? && !Shown(n, search) ==> m.value == n
    ensures m.Some? ==> m.value.inPoint.Ref() == n.inPoint.Ref() && m.value.outPoint.Ref() == n.outPoint.Ref()
    ensures m.Some? ==> m.value.inPoint.clickable == n.inPoint.clickable && m.value.outPoint.clickable == n.outPoint.clickable
  {
    if DrawThrows(n, search) then None
    else if Shown(n, search)
    then Some(n.(inPoint := Layout(n.inPoint, n.rect), outPoint := Layout(n.outPoint, n.rect)))
    else Some(n)
  }

  /** The items of the node's context menu: "Remove node" when a callback exists, then the kind's own commands. */
  function ContextItems(n: Node): (items: seq<MenuItem>)
    ensures RemoveNodeItem(n.id) in items <==> n.removable
    ensures forall k :: 0 <= k < |items| && items[k].RemoveNodeItem? ==> items[k].node == n.id
    ensures ShowInProjectItem(n.name) in items <==> n.kind.Typed?
    ensures n.removable ==> items[0] == RemoveNodeItem(n.id)
  {
    (if n.removable then [RemoveNodeItem(n.id)] else [])
    + (if n.kind.Typed? then [ShowInProjectItem(n.name)] else [])
  }

  datatype NodeEventResult = NodeEventResult(consumed: bool, event: Event, menu: Option<seq<MenuItem>>)

  /**
   * `ProcessEvents`: a right-button press inside the rect opens the context
   * menu, uses the event and reports true; anything else is ignored.
   */
  function ProcessEvents(n: Node, e: Event): (r: NodeEventResult)
    ensures r.consumed <==> e.button == 1 && e.kind == MouseDown && Contains(n.rect, e.pos)
    ensures r.consumed ==> r.event == Use(e) && r.menu == ShowMenu(ContextItems(n))
    ensures !r.consumed ==> r.event == e && r.menu == None
  {
    if e.button == 1 && e.kind == MouseDown && Contains(n.rect, e.pos)
    then NodeEventResult(true, Use(e), ShowMenu(ContextItems(n)))
    else NodeEventResult(false, e, None)
  }

  function BaseStyle(n: Node): string {
    match n.kind
    case Plain => "flow node 0"
    case Typed(style, _) => style
  }

  const OnSuffix := " on"

  /** The style the body is drawn with: the " on" variant exactly when selected. */
  function BodyStyle(n: Node): (s: string)
    ensures n.selected ==> s == BaseStyle(n) + OnSuffix
    ensures !n.selected ==> s == BaseStyle(n)
  {
    if n.selected then BaseStyle(n) + OnSuffix else BaseStyle(n)
  }

  /** When the base style does not itself end in " on", the drawn style ends in " on" iff the node is selected. */
  lemma BodyStyleMarksSelection(n: Node)
    requires !EndsWith(BaseStyle(n), OnSuffix)
    ensures EndsWith(BodyStyle(n), OnSuffix) <==> n.selected
  {
    var b := BaseStyle(n);
    if n.selected {
      assert (b + OnSuffix)[|b + OnSuffix| - |OnSuffix|..] == OnSuffix;
    }
  }
}
