/** Free-standing annotation boxes and their five-state gesture machine (Comment.cs). */
module Comments {
  import opened Geometry
  import Wrappers
  import opened Gui

  datatype State = None | Select | Edit | Drag | Resize

  /** A comment; `id` stands for the object's identity, `removable` for a non-null remove callback. */
  datatype Comment = Comment(id: nat, rect: Rect, text: string, state: State, removable: bool)

  /** `new Comment(rect, text, onRemove)`: starts in state None. */
  function NewComment(id: nat, rect: Rect, text: string, removable: bool): (c: Comment)
    ensures c.state == None && c.rect == rect && c.text == text && c.removable == removable && c.id == id
  {
    Comment(id, rect, text, None, removable)
  }

  /** `isSelected`: only state Select counts as selected. */
  predicate IsSelected(c: Comment) {
    c.state == Select
  }

  const StripSize := 20.0

  /** The full-width strip of height 20 along the top edge. */
  function DragArea(c: Comment): (r: Rect)
    ensures r.Position() == c.rect.Position() && r.w == c.rect.w && r.h == StripSize
  {
    Rect(c.rect.x, c.rect.y, c.rect.w, StripSize)
  }

  /** The 20x20 square in the bottom-right corner. */
  function ResizeArea(c: Comment): (r: Rect)
    ensures r.XMax() == c.rect.XMax() && r.YMax() == c.rect.YMax()
    ensures r.Size() == Vec2(StripSize, StripSize)
  {
    Rect(c.rect.XMax() - StripSize, c.rect.YMax() - StripSize, StripSize, StripSize)
  }

  /** For a comment at least 20 units wide and high both areas lie inside its rect. */
  lemma AreasInsideRect(c: Comment, p: Vec2)
    requires c.rect.w >= StripSize && c.rect.h >= StripSize
    ensures Contains(DragArea(c), p) ==> Contains(c.rect, p)
    ensures Contains(ResizeArea(c), p) ==> Contains(c.rect, p)
  {
  }

  /** `Drag`: only the position moves. */
  function DragBy(c: Comment, d: Vec2): (r: Comment)
    ensures r.rect.Position() == Add(c.rect.Position(), d) && r.rect.Size() == c.rect.Size()
    ensures r.(rect := c.rect) == c
  {
    c.(rect := Translate(c.rect, d))
  }

  /** `Resize`: only the size changes. */
  function ResizeBy(c: Comment, d: Vec2): (r: Comment)
    ensures r.rect.Size() == Add(c.rect.Size(), d) && r.rect.Position() == c.rect.Position()
    ensures r.(rect := c.rect) == c
  {
    c.(rect := Grow(c.rect, d))
  }

  /** The state a press leaves behind (first half of `HandleMouseDown`). */
  function PressState(c: Comment, e: Event): (s: State)
    ensures e.clickCount > 1 ==> (s == Edit <==> Contains(c.rect, e.pos)) && (s == None <==> !Contains(c.rect, e.pos))
    ensures e.clickCount > 1 ==> s == Edit || s == None
    ensures e.clickCount <= 1 ==> (s == Resize <==> Contains(ResizeArea(c), e.pos))
    ensures e.clickCount <= 1 ==>
      (s == Drag <==> Contains(DragArea(c), e.pos) && !Contains(ResizeArea(c), e.pos))
    ensures e.clickCount <= 1 ==>
      (s == Select <==> Contains(c.rect, e.pos) && !Contains(DragArea(c), e.pos) && !Contains(ResizeArea(c), e.pos))
    ensures e.clickCount <= 1 ==> s != Edit
  {
    var s0 := if Contains(c.rect, e.pos) then Select else None;
    if e.clickCount > 1 then
      (if s0 == Select then Edit else s0)
    else
      var s1 := if Contains(DragArea(c), e.pos) then Drag else s0;
      if Contains(ResizeArea(c), e.pos) then Resize else s1
  }

  datatype CommentEventResult = CommentEventResult(
    comment: Comment,
    event: Event,
    menu: Wrappers.Option<seq<MenuItem>>,
    changed: bool)

  /** The remove item, present only with a remove callback, naming the comment itself. */
  function ContextItems(c: Comment): (items: seq<MenuItem>)
    ensures |items| > 0 <==> c.removable
    ensures forall k :: 0 <= k < |items| ==> items[k] == RemoveCommentItem(c.id)
  {
    if c.removable then [RemoveCommentItem(c.id)] else []
  }

  /**
   * `HandleMouseDown`: set the press state; a right-button press that leaves
   * the comment in Select opens its context menu and uses the event.
   */
  function HandleMouseDown(c: Comment, e: Event): (r: CommentEventResult)
    ensures r.comment == c.(state := PressState(c, e))
    ensures r.event.kind == Used <==> (e.kind == Used || (e.button == 1 && PressState(c, e) == Select))
    ensures e.button == 1 && PressState(c, e) == Select ==> r.menu == ShowMenu(ContextItems(c))
    ensures !(e.button == 1 && PressState(c, e) == Select) ==> r.menu == Wrappers.None && r.event == e
    ensures !r.changed
  {
    var c1 := c.(state := PressState(c, e));
    if e.button == 1 && c1.state == Select
    then CommentEventResult(c1, Use(e), ShowMenu(ContextItems(c)), false)
    else CommentEventResult(c1, e, Wrappers.None, false)
  }

  /** `HandleMouseDrag`: primary-button drags move (Drag) or grow (Resize) the comment. */
  function HandleMouseDrag(c: Comment, e: Event): (r: Comment)
    ensures e.button != 0 ==> r == c
    ensures e.button == 0 && c.state == Drag ==> r == DragBy(c, e.delta)
    ensures e.button == 0 && c.state == Resize ==> r == ResizeBy(c, e.delta)
    ensures c.state !in {Drag, Resize} ==> r == c
    ensures r.state == c.state
  {
    if e.button != 0 then c
    else if c.state == Drag then DragBy(c, e.delta)
    else if c.state == Resize then ResizeBy(c, e.delta)
    else c
  }

  /** `ProcessEvents`: only buttons 0 and 1, only presses and drags; always reports false. */
  function ProcessEvents(c: Comment, e: Event): (r: CommentEventResult)
    ensures e.button != 0 && e.button != 1 ==> r == CommentEventResult(c, e, Wrappers.None, false)
    ensures e.kind !in {MouseDown, MouseDrag} ==> r == CommentEventResult(c, e, Wrappers.None, false)
    ensures (e.button == 0 || e.button == 1) && e.kind == MouseDown ==> r == HandleMouseDown(c, e)
    ensures (e.button == 0 || e.button == 1) && e.kind == MouseDrag ==>
      r == CommentEventResult(HandleMouseDrag(c, e), e, Wrappers.None, false)
    ensures !r.changed
    ensures r.comment.id == c.id && r.comment.text == c.text && r.comment.removable == c.removable
  {
    if e.button != 0 && e.button != 1 then CommentEventResult(c, e, Wrappers.None, false)
    else match e.kind
      case MouseDown => HandleMouseDown(c, e)
      case MouseDrag => CommentEventResult(HandleMouseDrag(c, e), e, Wrappers.None, false)
      case _ => CommentEventResult(c, e, Wrappers.None, false)
  }

  /** Only a press can change the state; a drag changes the rect at most. */
  lemma OnlyPressChangesState(c: Comment, e: Event)
    requires e.kind != MouseDown
    ensures ProcessEvents(c, e).comment.state == c.state
  {
  }

  /**
   * The gesture scenario: a press inside a fresh comment's body selects it,
   * an immediate second press edits it, and a press outside clears it.
   */
  lemma GestureScenario()
    ensures
      var c := NewComment(0, Rect(0.0, 0.0, 100.0, 100.0), "Comment", true);
      var inside := Event(MouseDown, 0, Vec2(50.0, 50.0), Zero2, 1, false);
      var c1 := ProcessEvents(c, inside).comment;
      var c2 := ProcessEvents(c1, inside.(clickCount := 2)).comment;
      var c3 := ProcessEvents(c2, inside.(pos := Vec2(200.0, 200.0))).comment;
      c1.state == Select && c2.state == Edit && c3.state == None
  {
  }
}
