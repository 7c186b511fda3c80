# AllNodes node editor and assembly view in Dafny

This project models the core of AllNodes, a Unity editor extension written in C#. It has two parts:

- **The node editor window.** Nodes are boxes with an in point on the left and an out point on the right. Connections run from an in point to an out point. Comments are resizable boxes with text. The user can:
  - select nodes with a click or a marquee box;
  - select a whole branch with a double click;
  - drag the selection, pan the canvas and zoom;
  - link two nodes by clicking an in point and an out point;
  - remove nodes, comments and connections from context menus;
  - search by name.
- **The assembly view built on that window.** It makes one type node per type of the project's assembly, styled by the type's kind. It links each type to the types its members refer to. It lays the nodes out in four lanes: roots, interior nodes, tails and isolated nodes. It saves the layout to an XML file and loads it back, matching nodes by name. It finds the source file that declares a type, with a cache.

The model is pure. Every operation takes the state and returns a new one. Nodes are objects compared by reference in the source, so here they live in a heap `map<NodeId, Node>`. The window's node list, the selection list and the connections' ends refer to node ids.

## Modules

| module | file | models |
|---|---|---|
| Wrappers | wrappers.dfy | `Option`, the stand-in for a null reference |
| Geometry | geometry.dfy | Unity's `Vector2` and `Rect` as used here: half-open `Contains`, strict `Overlaps`, the `xMin`/`xMax` setters |
| Text | text.dfy | `ToLower`, `IndexOf`, `Substring`, `Contains`, `EndsWith`, `Replace` |
| Gui | gui.dfy | events, `Event.Use`, context-menu items and `GenericMenu.ShowAsContext` |
| Anchors | anchors.dfy | `ConnectionPoint` |
| Links | links.dfy | `Connection` |
| Nodes | nodes.dfy | `Node` |
| Comments | comments.dfy | `Comment` |
| Selection | selection.dfy | the selection list and flags, `ProcessNodes`, `ClearSelection` |
| Branch | branch.dfy | `SelectBranch` |
| Editor | editor.dfy | the state and commands of `NodeEditorWindow` |
| EditorEvents | editor_events.dfy | the event routing of `OnGUI` |
| EditorValid | editor_valid.dfy | the window's invariant, kept by every operation |
| EditorBehaviour | editor_behaviour.dfy | what the user sees a gesture do |
| Reflection | reflection.dfy | the `System.Type` facts the assembly view reads, as input records |
| TypeNodes | typenode.dfy | `TypeNode` |
| NodesData | nodesdata.dfy | `NodesData`: the saved entries and `GetRect` |
| Placement | placement.dfy | `AssemblyViewer.PlaceNodes` |
| AssemblyView | viewer.dfy | `AssemblyViewer.OpenWindow`, `CreateNodes`, `ConnectNodes` |
| SavedLayout | savedlayout.dfy | `AssemblyViewer.SaveNodes` and `LoadNodes` |
| FileFinder | filefinder.dfy | `TypeFileFinder`, `TypeFileDetails` and `DatabaseLink` |

Some things are parameters of the model because Dafny cannot compute them:

- **Number formatting and parsing.** `Rect.ToString` formats each number with `fmt: real -> string`. `float.Parse` is `parse: string -> Option<real>`, and `None` stands for the exception. The round-trip lemmas hold for any such pair. They assume only that each saved coordinate prints without `,`, `)` or `:`. They state that a rectangle comes back as `parse` reads its four printed numbers (`NodesData.Reparsed`), and unchanged when `parse` gives back exactly the printed coordinates (`NodesData.Exact`). Unity's `Rect.ToString` prints two decimals, so a coordinate with more digits comes back rounded.
- **Reflection.** The assembly's types arrive as `TypeInfo` records: the full name (possibly null), the short name, the traits that decide the node style, and the names returned by `GetMembers`.
- **The file system.** The scanned `.cs` files are a sequence of paths. A file's time is `time: string -> int`. The type names that `searchPattern` matches in a file are `declared: string -> seq<string>`. The XML file is an `Option<Saved>`, and `None` means it does not exist.

## Model

| member | source | states |
|---|---|---|
| Geometry.FromCorners | Assets/AllNodesProject/Editor/NodeEditor/NodeEditorWindow.cs:330-335 | The selection box is the normalised rectangle spanned by its start and end points: its size is never negative, its left and right edges are the two x values and its top and bottom edges the two y values. |
| Geometry.SetXMin | Assets/AllNodesProject/Editor/NodeEditor/NodeEditorWindow.cs:613 | Setting `xMin` moves the left edge to the value and keeps the right edge, the top and the height. |
| Geometry.SetYMin | Assets/AllNodesProject/Editor/NodeEditor/NodeEditorWindow.cs:614 | Setting `yMin` moves the top edge to the value and keeps the bottom edge, the left and the width. |
| Geometry.SetXMax | Assets/AllNodesProject/Editor/NodeEditor/NodeEditorWindow.cs:616 | Setting `xMax` moves the right edge to the value and keeps the left edge, the top and the height. |
| Geometry.SetYMax | Assets/AllNodesProject/Editor/NodeEditor/NodeEditorWindow.cs:617 | Setting `yMax` moves the bottom edge to the value and keeps the top edge, the left and the width. |
| Geometry.ContainsOverlapsUnit | Assets/AllNodesProject/Editor/NodeEditor/NodeEditorWindow.cs:256-257 | A press inside a node's rectangle makes the 1×1 press box overlap that rectangle, so the press selects the node. |
| Text.Lower | Assets/AllNodesProject/Editor/NodeEditor/Node.cs:45 | `ToLower` keeps the length and lowers each character on its own: A–Z become a–z and every other character is unchanged. |
| Text.IndexOfFrom | Assets/AllNodesProject/Editor/AssemblyView/NodesData.cs:40-47 | `IndexOf(pattern, from)` gives the first occurrence of the pattern at or after `from`, or -1 exactly when there is none. |
| Text.Substring | Assets/AllNodesProject/Editor/AssemblyView/NodesData.cs:41 | `Substring(start, length)` succeeds exactly when the start and length lie inside the string, and then yields those characters; otherwise it is the exception. |
| Text.ReplaceCharKeepsOthers | Assets/AllNodesProject/Editor/AssemblyView/TypeFileFinder.cs:100 | Replacing one character by another keeps the length, swaps every occurrence and leaves every other character in place. |
| Gui.ShowMenu | Assets/AllNodesProject/Editor/NodeEditor/Node.cs:90-91 | A context menu opens exactly when it has at least one item, and it shows those items. |
| Anchors.NewPoint | Assets/AllNodesProject/Editor/NodeEditor/ConnectionPoint.cs:16-22 | A new connection point belongs to its node and side, is clickable exactly when it got a click callback, and has a 14×14 rectangle at the origin. |
| Anchors.Layout | Assets/AllNodesProject/Editor/NodeEditor/ConnectionPoint.cs:24-33 | Drawing a point keeps its size, node and callback and centres it on the midpoint of its node's left edge (in point) or right edge (out point). |
| Anchors.LayoutIdempotent | Assets/AllNodesProject/Editor/NodeEditor/ConnectionPoint.cs:24-33 | Laying a point out twice against the same node rectangle gives the same point as laying it out once. |
| Anchors.Click | Assets/AllNodesProject/Editor/NodeEditor/ConnectionPoint.cs:34-35 | Clicking a point reports it to the window exactly when it has a click callback. |
| Links.RemoveHandle | Assets/AllNodesProject/Editor/NodeEditor/Connection.cs:32-38 | A connection shows a remove handle exactly when it has a remove callback, and the handle sits at the midpoint of the two points' centres. |
| Links.HandleSymmetric | Assets/AllNodesProject/Editor/NodeEditor/Connection.cs:32-38 | The handle's position does not depend on which end is the in point. |
| Links.ClickHandle | Assets/AllNodesProject/Editor/NodeEditor/Connection.cs:32-38 | Clicking the handle asks the window to remove that connection exactly when the connection is removable. |
| Nodes.NewDefault | Assets/AllNodesProject/Editor/NodeEditor/Node.cs:22-28 | The default node is a 200×40 rectangle at the origin with no callbacks: neither point is clickable and it cannot be removed. Its name is null. |
| Nodes.NewAt | Assets/AllNodesProject/Editor/NodeEditor/Node.cs:30-36 | The positioned node has the given position and size, its points are clickable exactly when callbacks are given, and it is removable exactly when a remove callback is given. Its name is null. |
| Nodes.Drag | Assets/AllNodesProject/Editor/NodeEditor/Node.cs:38-41 | Dragging moves the node's position by the delta and changes nothing else. |
| Nodes.DragInverse | Assets/AllNodesProject/Editor/NodeEditor/Node.cs:38-41 | Dragging by a delta and then by its negation restores the node. |
| Nodes.ShowsBodyCaseInsensitive | Assets/AllNodesProject/Editor/NodeEditor/Node.cs:45 | The search test ignores the case of the node's name, and a name always matches its own lower-case form. |
| Nodes.DrawLayout | Assets/AllNodesProject/Editor/NodeEditor/Node.cs:43-55 | Drawing throws exactly when the search is non-empty and the node has no name, because `name.ToLower()` is called on null. Otherwise a node that passes the search test gets both points laid out on its edges, and one that fails is drawn empty and left unchanged. Nothing but the points' rectangles ever changes. |
| Nodes.ContextItems | Assets/AllNodesProject/Editor/NodeEditor/Node.cs:81-92 | The node's menu has "Remove node" (first) exactly when the node is removable, and "Show In Project View" exactly when it is a type node. |
| Nodes.ProcessEvents | Assets/AllNodesProject/Editor/NodeEditor/Node.cs:57-67 | A node consumes an event exactly when it is a right-button press inside its rectangle; it then marks the event used and opens its menu, otherwise the event passes untouched. |
| Nodes.BodyStyle | Assets/AllNodesProject/Editor/NodeEditor/Node.cs:71-74 | The body is drawn in the node's style, with " on" appended exactly when the node is selected. |
| Nodes.BodyStyleMarksSelection | Assets/AllNodesProject/Editor/NodeEditor/Node.cs:73 | For a style not already ending in " on", the drawn style ends in " on" exactly when the node is selected. |
| Comments.NewComment | Assets/AllNodesProject/Editor/NodeEditor/Comment.cs:45-50 | A new comment has the given rectangle and text, is removable as told and starts in state None. |
| Comments.DragArea | Assets/AllNodesProject/Editor/NodeEditor/Comment.cs:135-138 | The drag strip is the top 20 units of the comment, across its full width. |
| Comments.ResizeArea | Assets/AllNodesProject/Editor/NodeEditor/Comment.cs:140-143 | The resize handle is the 20×20 square in the comment's bottom-right corner. |
| Comments.AreasInsideRect | Assets/AllNodesProject/Editor/NodeEditor/Comment.cs:135-143 | For a comment at least 20 wide and 20 high, both areas lie inside its rectangle. |
| Comments.DragBy | Assets/AllNodesProject/Editor/NodeEditor/Comment.cs:71-74 | Dragging moves the comment's position by the delta and changes nothing else. |
| Comments.ResizeBy | Assets/AllNodesProject/Editor/NodeEditor/Comment.cs:76-79 | Resizing grows the comment's size by the delta, keeps its position and changes nothing else. |
| Comments.PressState | Assets/AllNodesProject/Editor/NodeEditor/Comment.cs:99-115 | A double press inside the comment edits it and one outside deselects it. A single press in the resize square resizes, elsewhere in the drag strip drags, elsewhere inside selects and outside deselects. |
| Comments.ContextItems | Assets/AllNodesProject/Editor/NodeEditor/Comment.cs:145-154 | The comment's menu holds only "Remove comment", and is non-empty exactly when the comment is removable. |
| Comments.HandleMouseDown | Assets/AllNodesProject/Editor/NodeEditor/Comment.cs:99-122 | A press sets the comment's state as above. A right press that selects it marks the event used and opens its menu; any other press leaves the event and menu untouched. |
| Comments.HandleMouseDrag | Assets/AllNodesProject/Editor/NodeEditor/Comment.cs:124-133 | A left-button drag moves a dragging comment and resizes a resizing one; any other drag leaves it unchanged, and its state never changes. |
| Comments.ProcessEvents | Assets/AllNodesProject/Editor/NodeEditor/Comment.cs:81-97 | Events from buttons other than left and right, and events that are neither presses nor drags, are ignored. Presses and drags go to their handlers, and the comment never reports a change. |
| Comments.OnlyPressChangesState | Assets/AllNodesProject/Editor/NodeEditor/Comment.cs:81-97 | Only a mouse press can change a comment's state. |
| Comments.GestureScenario | Assets/AllNodesProject/Editor/NodeEditor/Comment.cs:99-122 | Pressing inside a fresh comment selects it, a double press then edits it, and a press outside deselects it. |
| Selection.Clear | Assets/AllNodesProject/Editor/NodeEditor/NodeEditorWindow.cs:459-467 | Clearing deselects exactly the listed nodes and empties the list; under the selection invariant no node is left selected. |
| Selection.Flag | Assets/AllNodesProject/Editor/NodeEditor/NodeEditorWindow.cs:487-491 | Selecting a node flags it and appends it to the list, and keeps the selection invariant when it was not selected before. |
| Selection.ScanSpec | Assets/AllNodesProject/Editor/NodeEditor/NodeEditorWindow.cs:477-501 | After the marquee scan a node is selected exactly when it was already, or it is in the window and overlaps the box. Only selection flags change, and the invariant is kept. |
| Selection.ScanTop | Assets/AllNodesProject/Editor/NodeEditor/NodeEditorWindow.cs:481-491 | When some unselected node is hit, the first node the scan appends is the topmost one, the last in drawing order. |
| Selection.ScanNoTop | Assets/AllNodesProject/Editor/NodeEditor/NodeEditorWindow.cs:481-491 | When no unselected node is hit, the scan changes nothing. |
| Selection.ScanFresh | Assets/AllNodesProject/Editor/NodeEditor/NodeEditorWindow.cs:477-501 | From an empty selection the scan selects something exactly when some node is hit, and the topmost hit comes first. |
| Selection.Mark | Assets/AllNodesProject/Editor/NodeEditor/NodeEditorWindow.cs:512-514 | Marking a node flags it and appends it to the list only if it is not already there, keeping the selection invariant. |
| Selection.ApplyMarks | Assets/AllNodesProject/Editor/NodeEditor/NodeEditorWindow.cs:503-519 | Applying the branch's marks selects exactly the previously selected nodes plus the marked ones, changing only flags. |
| Branch.BranchMarksReachable | Assets/AllNodesProject/Editor/NodeEditor/NodeEditorWindow.cs:503-519 | Branch selection marks exactly the nodes reachable from the root by following links: through in points with control held, through out points otherwise. |
| Branch.CycleNeverReturns | Assets/AllNodesProject/Editor/NodeEditor/NodeEditorWindow.cs:503-519 | The recursion as written never returns on two nodes linked both ways, whatever stack depth is allowed. |
| Branch.CycleSelectsBoth | Assets/AllNodesProject/Editor/NodeEditor/NodeEditorWindow.cs:503-519 | On the same two linked nodes, the walk with a visited set returns and selects both nodes. |
| Editor.InitialValid | Assets/AllNodesProject/Editor/NodeEditor/NodeEditorWindow.cs:11-37 | A freshly opened window satisfies the editor invariant. |
| Editor.DragAll | Assets/AllNodesProject/Editor/NodeEditor/NodeEditorWindow.cs:469-475 | Dragging the selection moves exactly the selected nodes by the delta and changes nothing else about any node. |
| Editor.OnDrag | Assets/AllNodesProject/Editor/NodeEditor/NodeEditorWindow.cs:416-436 | Panning drags every comment by the delta. |
| Editor.OnZoom | Assets/AllNodesProject/Editor/NodeEditor/NodeEditorWindow.cs:438-446 | The zoom always stays within [0.25, 1.25]. A wheel turned up adds 0.1 and one turned down subtracts 0.1 when that stays in range; otherwise the zoom is clamped and moves no further than that step. |
| Editor.AddNode | Assets/AllNodesProject/Editor/NodeEditor/NodeEditorWindow.cs:103-108 | Adding a node makes it the new last element of the window's list. The earlier elements and everything else, the heap included, are unchanged. |
| Editor.AddNodeAt | Assets/AllNodesProject/Editor/NodeEditor/NodeEditorWindow.cs:521-529 | "Add node" creates a removable 200×50 node at the mouse position, with clickable points, and appends it. |
| Editor.CreateConnectionBetween | Assets/AllNodesProject/Editor/NodeEditor/NodeEditorWindow.cs:110-124 | Connecting `from` to `to` keeps the existing links and appends one. The new link's in end is an in point owned by `to`, and its out end is an out point owned by `from`. It is removable exactly when the window is not read-only. Nothing else changes. |
| Editor.CreateComment | Assets/AllNodesProject/Editor/NodeEditor/NodeEditorWindow.cs:126-136 | Creating a comment appends a removable comment with the given rectangle and text in state None, and changes nothing else. |
| Editor.ClickInPoint | Assets/AllNodesProject/Editor/NodeEditor/NodeEditorWindow.cs:531-547 | An in-point click waits for an out point. If one is pending on another node they are linked and both cleared; if it is on the same node both are cleared. |
| Editor.ClickOutPoint | Assets/AllNodesProject/Editor/NodeEditor/NodeEditorWindow.cs:549-565 | An out-point click waits for an in point. If one is pending on another node they are linked and both cleared; if it is on the same node both are cleared. |
| Editor.Drawn | Assets/AllNodesProject/Editor/NodeEditor/NodeEditorWindow.cs:174-183 | The nodes `DrawNodes` draws are a prefix of the list. None of them throws. The prefix ends early only at a node whose `Draw` throws. |
| Editor.ClickAnchor | Assets/AllNodesProject/Editor/NodeEditor/Node.cs:43-49 | A point click reaches the window only from a node that the last pass drew, that the search shows, and whose point is clickable. The node is therefore in the list, and no node before it lacks a name under a non-empty search. The click then goes to the in-point or out-point handler. |
| Editor.FilterLinks | Assets/AllNodesProject/Editor/NodeEditor/NodeEditorWindow.cs:569-586 | Removing a node's connections keeps exactly the connections that touch neither its in point nor its out point. |
| Editor.RemoveFirst | Assets/AllNodesProject/Editor/NodeEditor/NodeEditorWindow.cs:589 | `List.Remove` deletes one occurrence of an element that is present and leaves a list without it unchanged; a duplicate-free list loses the element entirely. |
| Editor.RemoveNodeAsWritten | Assets/AllNodesProject/Editor/NodeEditor/NodeEditorWindow.cs:567-590 | As written, removing a node keeps exactly the links not attached to it. It takes the node off a duplicate-free list and keeps every other listed node. Both pending point slots keep their value, even one on the removed node. Nothing else changes: not the heap, the selection or the comments. |
| Editor.RemoveNode | Assets/AllNodesProject/Editor/NodeEditor/NodeEditorWindow.cs:567-590 | Corrected removal: as written, and a pending point on the removed node is cleared as well. |
| Editor.RemoveComment | Assets/AllNodesProject/Editor/NodeEditor/NodeEditorWindow.cs:592-595 | Removing a comment keeps every other comment and changes nothing but the comment list. |
| Editor.RemoveConnectionAt | Assets/AllNodesProject/Editor/NodeEditor/NodeEditorWindow.cs:597-600 | Removing a connection deletes exactly that connection and leaves the rest in order. |
| Editor.ClickConnectionHandle | Assets/AllNodesProject/Editor/NodeEditor/NodeEditorWindow.cs:185-196 | A connection's handle works only while the search is empty and the connection is removable; a click then deletes that connection and nothing else. |
| Editor.WrapStep | Assets/AllNodesProject/Editor/NodeEditor/NodeEditorWindow.cs:613-617 | One wrapping step gives a rectangle 10 units beyond both the accumulated rectangle and the node's rectangle on every side. |
| Editor.WrapAll | Assets/AllNodesProject/Editor/NodeEditor/NodeEditorWindow.cs:609-618 | The wrapping loop's rectangle reaches at least 10 units beyond every selected node on every side. |
| Editor.OnClickCreateComment | Assets/AllNodesProject/Editor/NodeEditor/NodeEditorWindow.cs:602-622 | With nothing selected, "Create Comment" starts drawing a comment. Otherwise it appends a "New Comment" whose rectangle wraps every selected node with a 10-unit margin. |
| Editor.CanvasItems | Assets/AllNodesProject/Editor/NodeEditor/NodeEditorWindow.cs:363-374 | The canvas menu always has "Create Comment", and has "Add node" exactly when the window is not read-only. |
| EditorEvents.LayoutAll | Assets/AllNodesProject/Editor/NodeEditor/NodeEditorWindow.cs:174-183 | The draw pass completes exactly when no listed node's `Draw` throws. It lays out connection points and changes nothing else: nodes keep their rectangles, names, flags and points' identities. |
| EditorEvents.NodePass | Assets/AllNodesProject/Editor/NodeEditor/NodeEditorWindow.cs:338-349 | A right press is consumed by the topmost node under the mouse, which opens its menu; any other event, or a press on no node, passes through. |
| EditorEvents.CommentPass | Assets/AllNodesProject/Editor/NodeEditor/NodeEditorWindow.cs:351-359 | The comment pass keeps each comment's identity, text and removability, and passes a used event through untouched. |
| EditorEvents.CreatingComment | Assets/AllNodesProject/Editor/NodeEditor/NodeEditorWindow.cs:376-414 | While drawing a comment, a press anchors both corners and a drag moves the end corner. A release appends a "Comment" with the normalised rectangle and ends drawing. |
| EditorEvents.WindowEvents | Assets/AllNodesProject/Editor/NodeEditor/NodeEditorWindow.cs:236-336 | After every event the selection box is recomputed from its two corners, and a menu opens exactly on a right press, with the canvas items. |
| EditorEvents.Step | Assets/AllNodesProject/Editor/NodeEditor/NodeEditorWindow.cs:58-81 | A pass is cut short exactly when some listed node has no name while the search is non-empty. Then no handler runs, no menu opens, and nothing but the point layout changes. The comments are drawn first, so the handlers see a press inside an edited comment as used. |
| EditorEvents.EditFieldsTake | Assets/AllNodesProject/Editor/NodeEditor/NodeEditorWindow.cs:163-172 | Drawing the comments marks an event used exactly when it is a mouse press inside some comment in the Edit state (or was used already); otherwise the event is unchanged. |
| EditorValid.StepValid | Assets/AllNodesProject/Editor/NodeEditor/NodeEditorWindow.cs:58-101 | One `OnGUI` pass keeps the editor invariant and the zoom within range. Links and pending points then refer to nodes in the window, and selection flags agree with the selection list. |
| EditorValid.WindowEventsValid | Assets/AllNodesProject/Editor/NodeEditor/NodeEditorWindow.cs:236-336 | Window-level event handling keeps the editor invariant. |
| EditorValid.ProcessNodesValid | Assets/AllNodesProject/Editor/NodeEditor/NodeEditorWindow.cs:477-501 | The marquee scan keeps the editor invariant. |
| EditorValid.SelectBranchValid | Assets/AllNodesProject/Editor/NodeEditor/NodeEditorWindow.cs:503-519 | Branch selection keeps the editor invariant. |
| EditorValid.CreatingCommentValid | Assets/AllNodesProject/Editor/NodeEditor/NodeEditorWindow.cs:376-414 | Drawing a comment keeps the editor invariant. |
| EditorValid.RemoveNodeValid | Assets/AllNodesProject/Editor/NodeEditor/NodeEditorWindow.cs:567-590 | The corrected node removal keeps the editor invariant: no link and no pending point refers to the removed node. |
| EditorValid.ClickAnchorValid | Assets/AllNodesProject/Editor/NodeEditor/NodeEditorWindow.cs:531-565 | Clicking a point keeps the editor invariant. |
| EditorValid.ClickConnectionHandleValid | Assets/AllNodesProject/Editor/NodeEditor/NodeEditorWindow.cs:597-600 | Removing a connection keeps the editor invariant. |
| EditorValid.AddNodeAtValid | Assets/AllNodesProject/Editor/NodeEditor/NodeEditorWindow.cs:521-529 | Adding a node keeps the editor invariant. |
| EditorValid.OnClickCreateCommentValid | Assets/AllNodesProject/Editor/NodeEditor/NodeEditorWindow.cs:602-622 | "Create Comment" keeps the editor invariant. |
| EditorValid.RemoveCommentValid | Assets/AllNodesProject/Editor/NodeEditor/NodeEditorWindow.cs:592-595 | Removing a comment keeps the editor invariant. |
| Editor.Choose | Assets/AllNodesProject/Editor/NodeEditor/NodeEditorWindow.cs:363-374 | Each menu command does its job. "Add node" appends a fresh removable node at the position. "Create Comment" leaves nodes and links alone. "Remove node" leaves no link or pending point on the node. "Remove comment" only drops comments. "Show In Project View" changes nothing. Node removal is the corrected `RemoveNode`. |
| Editor.ChooseAsWritten | Assets/AllNodesProject/Editor/NodeEditor/NodeEditorWindow.cs:567-590 | As the source wires the menu, every command but "Remove node" is `Choose`. "Remove node" keeps both pending slots as they were and keeps exactly the links not attached to the node. |
| EditorValid.ChooseValid | Assets/AllNodesProject/Editor/NodeEditor/NodeEditorWindow.cs:363-374 | Every menu command (add node, create comment, remove node, remove comment, show in project) keeps the editor invariant, with node removal being the corrected `RemoveNode`. The source's own removal breaks it (see Findings). |
| EditorBehaviour.ProcessNodesSelects | Assets/AllNodesProject/Editor/NodeEditor/NodeEditorWindow.cs:477-501 | The marquee scan only adds to the selection: it keeps the old selection, adds exactly the hit nodes, and changes only flags. |
| EditorBehaviour.PressOnSelectionStartsDrag | Assets/AllNodesProject/Editor/NodeEditor/NodeEditorWindow.cs:267-274 | A single left press on a selected node starts dragging the selection, keeps it as it is, zeroes the box and clears pending points. |
| EditorBehaviour.ClearedFlags | Assets/AllNodesProject/Editor/NodeEditor/NodeEditorWindow.cs:459-467 | Clearing the selection leaves no node selected, an empty list and every rectangle where it was. |
| EditorBehaviour.PressElsewhereSelectsHits | Assets/AllNodesProject/Editor/NodeEditor/NodeEditorWindow.cs:250-266 | A single left press off the selection selects exactly the nodes under the mouse. It starts dragging exactly when it hit something, and otherwise anchors the marquee at the mouse. |
| EditorBehaviour.PressHitsTop | Assets/AllNodesProject/Editor/NodeEditor/NodeEditorWindow.cs:256-258 | After the press scan something is selected exactly when some node lies under the mouse, and the topmost such node is first. |
| EditorBehaviour.SelectBranchAdds | Assets/AllNodesProject/Editor/NodeEditor/NodeEditorWindow.cs:503-519 | After branch selection a node is selected exactly when it was before or it is reachable from the root. |
| EditorBehaviour.MultiClickSelectsBranch | Assets/AllNodesProject/Editor/NodeEditor/NodeEditorWindow.cs:276-283 | A double press selects something exactly when a node is under the mouse. It then selects the nodes under the mouse plus the branch of the topmost one, followed as control says. |
| EditorBehaviour.PrimaryPressClearsPending | Assets/AllNodesProject/Editor/NodeEditor/NodeEditorWindow.cs:243-245 | Every left press clears both pending connection points. |
| EditorBehaviour.MarqueeOnlyGrows | Assets/AllNodesProject/Editor/NodeEditor/NodeEditorWindow.cs:306-311 | A left drag while not dragging nodes keeps the selection, adds the nodes the box hits and moves the box's end corner to the mouse. |
| EditorBehaviour.DragMovesSelection | Assets/AllNodesProject/Editor/NodeEditor/NodeEditorWindow.cs:312-316 | A left drag while dragging moves exactly the selected nodes by the delta and keeps the selection. |
| EditorBehaviour.PanMovesEverything | Assets/AllNodesProject/Editor/NodeEditor/NodeEditorWindow.cs:319-322 | A middle-button drag moves every node in the window and every comment by the delta and keeps the selection. |
| EditorBehaviour.ReleaseEndsDrag | Assets/AllNodesProject/Editor/NodeEditor/NodeEditorWindow.cs:292-301 | A left release ends dragging, zeroes the box and keeps the selection. |
| EditorBehaviour.LinkEitherOrder | Assets/AllNodesProject/Editor/NodeEditor/NodeEditorWindow.cs:531-565 | Clicking an in point and an out point on different nodes, in either order, appends the same removable link and nothing else. |
| EditorBehaviour.SameNodeCancels | Assets/AllNodesProject/Editor/NodeEditor/NodeEditorWindow.cs:531-565 | Clicking the in and out points of one node, in either order, leaves the editor as it was. |
| EditorBehaviour.AnchorClicksLink | Assets/AllNodesProject/Editor/NodeEditor/NodeEditorWindow.cs:531-565 | On a valid editor, clicking a drawn, visible node's in point and then another's out point links them. |
| EditorBehaviour.EmptySearchNeverAborts | Assets/AllNodesProject/Editor/NodeEditor/Node.cs:45 | With an empty search no pass is cut short, named nodes or not. |
| EditorBehaviour.AddedNodeBlocksSearch | Assets/AllNodesProject/Editor/NodeEditor/NodeEditorWindow.cs:521-529 | A node added from the canvas menu has no name. With a non-empty search every later pass throws while drawing it: no handler runs, no menu opens, and only the point layout changes. |
| EditorBehaviour.PointsLiveBeforeUnnamed | Assets/AllNodesProject/Editor/NodeEditor/NodeEditorWindow.cs:174-183 | A node's buttons work when it is shown and no node up to it in the list throws while drawing. |
| EditorBehaviour.EditedCommentTakesPress | Assets/AllNodesProject/Editor/NodeEditor/Comment.cs:64-67 | When the nodes draw, a press inside a comment in the Edit state reaches no handler in either mode: the comments, selection and pending points stay as they were, no menu opens, and only the point layout and the recomputed selection box change. |
| EditorBehaviour.RemoveNodeDropsItsLinks | Assets/AllNodesProject/Editor/NodeEditor/NodeEditorWindow.cs:567-590 | Removing a node in the window takes it off the list, drops its links from either part of the connection list and leaves no link touching it. |
| EditorBehaviour.RemoveNodeMatchesSource | Assets/AllNodesProject/Editor/NodeEditor/NodeEditorWindow.cs:567-590 | When no pending point is on the removed node, the corrected removal is exactly the removal as written. |
| EditorBehaviour.RemoveNodeAsWrittenDangles | Assets/AllNodesProject/Editor/NodeEditor/NodeEditorWindow.cs:567-590 | As written: click node 0's in point, remove node 0 from its menu, then click node 1's out point. The window now holds a link to a node it no longer contains. |
| EditorBehaviour.RemoveNodeScenario | Assets/AllNodesProject/Editor/NodeEditor/NodeEditorWindow.cs:567-590 | The same clicks with the corrected removal create no link and leave node 1's out point pending. |
| TypeNodes.StyleIndex | Assets/AllNodesProject/Editor/AssemblyView/TypeNode.cs:33-51 | The style follows the source's branches: value types 5, interfaces 4, delegates 6, then for classes MonoBehaviour 0, ScriptableObject 1, other Unity objects 2 and the rest 3, and anything else 0. A type with no base type has no style. |
| TypeNodes.StylesDistinct | Assets/AllNodesProject/Editor/AssemblyView/TypeNode.cs:13-29 | The fourteen style names are pairwise distinct. |
| TypeNodes.NewTypeNode | Assets/AllNodesProject/Editor/AssemblyView/TypeNode.cs:31-55 | A type node exists exactly when its style is defined. It is a default node named after the type, carrying the type and that style. |
| TypeNodes.TypeNodeStylePlain | Assets/AllNodesProject/Editor/AssemblyView/TypeNode.cs:33-51 | A type node only ever uses one of the seven plain styles, never a hex one. |
| TypeNodes.TypeNodeBodyStyle | Assets/AllNodesProject/Editor/AssemblyView/TypeNode.cs:57-60 | A type node's body is drawn in its style, with " on" appended exactly when it is selected. |
| NodesData.EmptyData | Assets/AllNodesProject/Editor/AssemblyView/NodesData.cs:18-22 | The empty entry has an empty name and an empty rectangle string. |
| NodesData.NodeEntry | Assets/AllNodesProject/Editor/AssemblyView/NodesData.cs:24-28 | A node's entry holds its name and its rectangle in `Rect.ToString` form. A null name reads back from the file as the default entry's empty name. |
| NodesData.CommentEntry | Assets/AllNodesProject/Editor/AssemblyView/NodesData.cs:30-34 | A comment's entry holds its text and its rectangle in `Rect.ToString` form. |
| NodesData.SetData | Assets/AllNodesProject/Editor/AssemblyView/NodesData.cs:62-74 | The saved data has one entry per node and per comment, in order. |
| NodesData.GetRect | Assets/AllNodesProject/Editor/AssemblyView/NodesData.cs:36-56 | Reading an entry gives the rectangle its four fields parse to, or the 200×50 fallback when any step of the parse fails. |
| NodesData.FieldBetween | Assets/AllNodesProject/Editor/AssemblyView/NodesData.cs:40-47 | A field read between a marker and a delimiter contains no delimiter and sits right after the marker's first occurrence. |
| NodesData.EmptyGivesFallback | Assets/AllNodesProject/Editor/AssemblyView/NodesData.cs:36-56 | The empty entry reads as the fallback rectangle. |
| NodesData.NoCloseGivesFallback | Assets/AllNodesProject/Editor/AssemblyView/NodesData.cs:46-55 | A rectangle string without ")" reads as the fallback rectangle. |
| NodesData.GetRectRoundTrip | Assets/AllNodesProject/Editor/AssemblyView/NodesData.cs:24-56 | For any number format whose output holds no `,`, `)` or `:`, reading back a written rectangle yields the four parsed numbers, or the fallback when one does not parse. When parsing gives back each coordinate exactly, the rectangle comes back unchanged. |
| NodesData.SaveThenReadRects | Assets/AllNodesProject/Editor/AssemblyView/NodesData.cs:24-74 | Every saved node and comment entry whose numbers print plainly reads back as its reparsed rectangle. A node entry whose coordinates parse back exactly reads back as its own rectangle. |
| Placement.RootTail | Assets/AllNodesProject/Editor/AssemblyView/AssemblyViewer.cs:107-117 | A node is a root exactly when no link ends at its in point, and a tail exactly when no link starts at its out point. |
| Placement.LaneCases | Assets/AllNodesProject/Editor/AssemblyView/AssemblyViewer.cs:119-142 | Every node falls into exactly one of the four lanes, decided by the root and tail tests. |
| Placement.PlaceNodesSpec | Assets/AllNodesProject/Editor/AssemblyView/AssemblyViewer.cs:97-146 | Each node goes to its lane's x and to y = 50 × the number of earlier nodes in the same lane, keeping its size and everything else; other nodes are unchanged. |
| Placement.RowsIncrease | Assets/AllNodesProject/Editor/AssemblyView/AssemblyViewer.cs:119-142 | Within one lane, later nodes get strictly larger rows, so no two nodes of a lane overlap in y. |
| Placement.RowBelowCount | Assets/AllNodesProject/Editor/AssemblyView/AssemblyViewer.cs:119-142 | Rows are dense: the nodes of a lane take rows 0 to n - 1. |
| AssemblyView.MakeTypeNodes | Assets/AllNodesProject/Editor/AssemblyView/AssemblyViewer.cs:64-66 | Type nodes are built in order until the first type that has no style, where construction throws. |
| AssemblyView.Put | Assets/AllNodesProject/Editor/AssemblyView/AssemblyViewer.cs:68-69 | A name is added to the dictionary only when absent, so the first node with a full name keeps it. |
| AssemblyView.Values | Assets/AllNodesProject/Editor/AssemblyView/AssemblyViewer.cs:105 | The dictionary's values are its nodes in insertion order, one per key. |
| AssemblyView.CreateNodesMade | Assets/AllNodesProject/Editor/AssemblyView/AssemblyViewer.cs:62-73 | Creating nodes makes one per type until the first type with no style. It fails exactly when it stops early, at that type. |
| AssemblyView.CreateNodesStore | Assets/AllNodesProject/Editor/AssemblyView/AssemblyViewer.cs:62-73 | Every made node is added to the window, duplicates by name included, with fresh ids in order; older nodes are unchanged. |
| AssemblyView.CreateNodesNames | Assets/AllNodesProject/Editor/AssemblyView/AssemblyViewer.cs:68-69 | The dictionary gains exactly the full names of the made nodes, old entries stay, and each new name maps to the first node with it. |
| AssemblyView.CreateNodesFrame | Assets/AllNodesProject/Editor/AssemblyView/AssemblyViewer.cs:62-73 | Creating nodes changes only the window's node list, heap and id counter, and not the link list. |
| AssemblyView.CreateNodesNamed | Assets/AllNodesProject/Editor/AssemblyView/AssemblyViewer.cs:62-71 | Every type node is named after its type. So a window whose listed nodes all have names keeps that after `CreateNodes`, and loading a layout into it cannot throw on a null name. |
| AssemblyView.RefEdges | Assets/AllNodesProject/Editor/AssemblyView/AssemblyViewer.cs:81-93 | A type's references give exactly the links from each known, non-null reference other than the type itself. |
| AssemblyView.ConnectRefs | Assets/AllNodesProject/Editor/AssemblyView/AssemblyViewer.cs:81-93 | Those links are appended both to the window's connections and to the viewer's link list. |
| AssemblyView.Edges | Assets/AllNodesProject/Editor/AssemblyView/AssemblyViewer.cs:75-95 | Connecting fails exactly when some type's full name is not in the dictionary, where the lookup throws. |
| AssemblyView.EdgesSpec | Assets/AllNodesProject/Editor/AssemblyView/AssemblyViewer.cs:75-95 | Every link made comes from a type's reference; when nothing fails, every such reference gives a link. |
| AssemblyView.EdgeShape | Assets/AllNodesProject/Editor/AssemblyView/AssemblyViewer.cs:88-91 | Every such link joins two distinct named nodes, in point to out point, and is removable exactly when the window is not read-only. |
| AssemblyView.CreatedValue | Assets/AllNodesProject/Editor/AssemblyView/AssemblyViewer.cs:68-69 | A made node is one of the dictionary's values exactly when it is the first type with its full name. |
| AssemblyView.SeedFails | Assets/AllNodesProject/Editor/AssemblyView/AssemblyViewer.cs:35-59 | Opening the view fails, and the error is logged, exactly when some type has no style or no full name. |
| AssemblyView.SeedSteps | Assets/AllNodesProject/Editor/AssemblyView/AssemblyViewer.cs:42-46 | When every type has a style and a full name, opening the view is create, connect, then place, in that order. |
| AssemblyView.SeedNames | Assets/AllNodesProject/Editor/AssemblyView/AssemblyViewer.cs:42-46 | When every type has a style and a full name, every type's full name is in the dictionary and maps to the first node with that name. |
| AssemblyView.SeedPlaces | Assets/AllNodesProject/Editor/AssemblyView/AssemblyViewer.cs:46 | When every type has a style and a full name, the dictionary's nodes are laid out in lanes as `PlaceNodes` promises. |
| AssemblyView.SeedLinks | Assets/AllNodesProject/Editor/AssemblyView/AssemblyViewer.cs:44 | The viewer's links are exactly the links from the types' references, all of them when nothing failed. |
| AssemblyView.SeedConnections | Assets/AllNodesProject/Editor/AssemblyView/AssemblyViewer.cs:44 | The window's connections are the earlier ones followed by the viewer's links. |
| SavedLayout.SaveData | Assets/AllNodesProject/Editor/AssemblyView/AssemblyViewer.cs:148-155 | Saving writes one entry per window node and per comment, in order, with its name or text and its rectangle string. |
| SavedLayout.Collect | Assets/AllNodesProject/Editor/AssemblyView/AssemblyViewer.cs:180-187 | The loaded dictionary has exactly the saved node names as keys. |
| SavedLayout.CollectFirst | Assets/AllNodesProject/Editor/AssemblyView/AssemblyViewer.cs:180-187 | Each name maps to the rectangle of its first saved entry. |
| SavedLayout.ApplyRects | Assets/AllNodesProject/Editor/AssemblyView/AssemblyViewer.cs:188-192 | The rect loop runs to the end exactly when every listed node has a name; `ContainsKey(null)` throws on the first that has none. |
| SavedLayout.ApplyRectsSpec | Assets/AllNodesProject/Editor/AssemblyView/AssemblyViewer.cs:188-192 | When every listed node has a name, a window node whose name is in the dictionary takes that rectangle, and every other node is unchanged. |
| SavedLayout.AddCommentsSpec | Assets/AllNodesProject/Editor/AssemblyView/AssemblyViewer.cs:193-196 | Every saved comment is recreated, in order, after the existing ones. |
| SavedLayout.LoadNodes | Assets/AllNodesProject/Editor/AssemblyView/AssemblyViewer.cs:171-197 | Loading without a file does nothing. With a file, loading throws exactly when a listed node has no name, and then adds no comment. Loading never changes the node list, the connections or the selection. |
| SavedLayout.LoadMovesNamed | Assets/AllNodesProject/Editor/AssemblyView/AssemblyViewer.cs:180-192 | A window node takes the rectangle of the first saved entry with its name. |
| SavedLayout.LoadKeepsUnnamed | Assets/AllNodesProject/Editor/AssemblyView/AssemblyViewer.cs:188-192 | A node not in the window, or whose name was not saved, is unchanged. |
| SavedLayout.LoadAddsComments | Assets/AllNodesProject/Editor/AssemblyView/AssemblyViewer.cs:193-196 | Loading appends one comment per saved comment entry, with its rectangle and text, after the existing ones. |
| SavedLayout.SaveThenLoad | Assets/AllNodesProject/Editor/AssemblyView/AssemblyViewer.cs:148-197 | Suppose every window node has a name, nodes with the same name share a rectangle, and the coordinates print plainly. Then loading what was just saved succeeds. Each window node gets its rectangle as the format reads it back, and keeps it exactly when the coordinates parse back exactly. Other nodes stay as they were. This holds for any number format. |
| SavedLayout.SaveThenLoadComments | Assets/AllNodesProject/Editor/AssemblyView/AssemblyViewer.cs:148-197 | When every window node has a name, saving then loading doubles the comments. Each copy has the original's text and its rectangle as the format reads it back, and exactly the original rectangle when the coordinates parse back exactly. |
| FileFinder.Get | Assets/AllNodesProject/Editor/AssemblyView/TypeFileFinder.cs:117-125 | A lookup finds an entry exactly when the class name is in the cache, and returns that entry. |
| FileFinder.Store | Assets/AllNodesProject/Editor/AssemblyView/TypeFileFinder.cs:111-116 | Storing adds the class name. An entry already present wins, and other names are unaffected. |
| FileFinder.StoreFirstWins | Assets/AllNodesProject/Editor/AssemblyView/TypeFileFinder.cs:111-116 | Storing a second entry for a class name changes nothing: the first stays. |
| FileFinder.ProjectPathSlashes | Assets/AllNodesProject/Editor/AssemblyView/TypeFileFinder.cs:100 | A project path never contains a backslash. |
| FileFinder.ProjectPathUnderAssets | Assets/AllNodesProject/Editor/AssemblyView/TypeFileFinder.cs:100 | A file under the data folder gets a project path starting with "Assets". |
| FileFinder.NewDetails | Assets/AllNodesProject/Editor/AssemblyView/TypeFileFinder.cs:96-104 | A new entry records the class name, the path, the file time and the project path derived from the path. |
| FileFinder.RegisterKeepsFirst | Assets/AllNodesProject/Editor/AssemblyView/TypeFileFinder.cs:96-116 | When a lookup builds several entries for a new name, the cache keeps the first one built. |
| FileFinder.FindWith | Assets/AllNodesProject/Editor/AssemblyView/TypeFileFinder.cs:20-64 | A cache hit is returned as is. A miss either finds nothing and leaves the cache unchanged, or adds an entry under the type name. Old entries are never changed. |
| FileFinder.FindMisses | Assets/AllNodesProject/Editor/AssemblyView/TypeFileFinder.cs:20-58 | The lookup finds nothing exactly when the name is not cached, no file name matches and no file declares the type. |
| FileFinder.FindByName | Assets/AllNodesProject/Editor/AssemblyView/TypeFileFinder.cs:26-34 | When file names match, the lookup returns the last matching file while the cache keeps the first. |
| FileFinder.FindByContent | Assets/AllNodesProject/Editor/AssemblyView/TypeFileFinder.cs:36-53 | When no file name matches, the same holds for the files that declare the type. |
| FileFinder.FindAgain | Assets/AllNodesProject/Editor/AssemblyView/TypeFileFinder.cs:22 | A second lookup of a found name returns the cached entry without searching. |
| FileFinder.FoundPathSlashes | Assets/AllNodesProject/Editor/AssemblyView/TypeFileFinder.cs:100 | A found entry's project path has no backslash. |
| FileFinder.SuffixPicksLongerName | Assets/AllNodesProject/Editor/AssemblyView/TypeFileFinder.cs:28-34 | As written, looking up "Node" among `Node.cs` and `TypeNode.cs` returns `TypeNode.cs`. |
| FileFinder.FileNamePicksNode | Assets/AllNodesProject/Editor/AssemblyView/TypeFileFinder.cs:28-34 | With the whole-file-name test the same lookup returns `Node.cs`. |
| FileFinder.FindFileNamesType | Assets/AllNodesProject/Editor/AssemblyView/TypeFileFinder.cs:28-34 | With the whole-file-name test, whenever some file is named after the type, the file found is named after the type. |

## Left out

- Painting is left out: `GUI.Box`, the styles and textures, the grid and its `offset`, the zoom matrix, `DrawConnectionLine`, `DrawSelectionBox`, the search field and its cancel button, and `Repaint`/`GUI.changed`. The model keeps only what a pass changes: where connection points are laid out (`Node.Draw`, `ConnectionPoint.Draw`) and which clicks the buttons deliver.
- A point button and a connection's remove button take the mouse press and release over them for themselves (`GUI.Button`), so those events never reach the handlers of `EditorEvents.Step`. `Editor.ClickAnchor` and `Editor.ClickConnectionHandle` are the whole of such a click, and a press over a point does not clear the pending slots.
- The search text is an input of the model. The source draws the search field after `DrawNodes`, so while a pass throws on an unnamed node the field is not drawn either (`EditorBehaviour.AddedNodeBlocksSearch`).
- EditorEvents.Step: the text field of a comment in the Edit state (`Comment.Draw`, Comment.cs:66) is modelled only as using a press inside it. Holding the mouse after that press is left out, as is the keyboard: in Unity the field keeps the following drags and the release for itself, while `EditorEvents.Step` passes them on to `EditorEvents.CommentPass` and the window handler. Typing into the comment is left out too. The model uses the press whatever its button.
- The node, connection and comment lists are never null in the model; the source creates them lazily. One difference follows: in the source, `SelectBranch` throws `NullReferenceException` on a double click before any connection exists. The model selects the hit nodes and no branch.
- Reflection (`Assembly.Load`, `GetTypes`, `GetMembers` in AssemblyViewer.cs:199-233) is replaced by the `TypeInfo` input records. The `failed` flag is the `catch (System.Exception)` path of AssemblyViewer.cs:54-57: a style decision that throws, a null full name, or a missing key. The missing-assembly path (`FileNotFoundException`, its dialog and `window.Close()`, AssemblyViewer.cs:47-53) is left out.
- The window's lifecycle is left out: the static `window`, `readOnly` set only when the window first opens, `onDrawUI`/`DrawUI` (whose Load and Save buttons call the modelled operations), and `OnDisable`/`onWindowClosed`.
- File I/O and the XML serializer are left out, and so are the `CodeStructure.xml` path derivation and `FindAllCSharpFiles`. The directory walk and the order of its result are the `files` parameter.
- Floating point is left out: numbers are reals, so `OnZoom`'s steps of 0.1 and `PlaceNodes`' rows are exact.
- String comparison is ordinal, and `ToLower` lowers ASCII letters only; the source compares by the current culture.
- `searchPattern` is the `declared` oracle. The regex's name class `1-9` leaves out the digit 0, so a type whose name contains 0 is never found by content in the source. Several matches of the same name in one file build equal entries in the source; the model builds one per file.
- `TypeFileDetails.OID` is never set and is left out.
- `TypeFileFinder.FindTypeFile` only passes `t.Name` on and is left out. The "Show In Project View" command (`PingObject`, `LoadMainAssetAtPath`) changes no modelled state: `Editor.Choose` treats it as a no-op.
- `Debug.Log` output is left out.
- Saved entry names are strings, read as they come back from the file. The XML serializer leaves a null name out, and reading the file back keeps the empty name of `NodeData()`. So the model's `NodesData.NodeEntry` writes "" for a node without a name, and a saved entry with a null name never occurs.
- `Placement.PlaceNodesSpec` and `SavedLayout.ApplyRectsSpec` speak of ids in the node heap. `PlaceFrom` and `ApplyRects` pass over an id missing from the heap, which cannot occur in the source, where the loops walk node objects.
- `SavedLayout.SaveData` requires every id in the window's list to be in the heap. This is the model's form of "the list holds node objects", not a demand on callers.
- `SavedLayout.SaveThenLoad` requires nodes with the same name to share a rectangle, because loading keeps the first saved entry per name. The `nodes == null` test in `SaveNodes` (AssemblyViewer.cs:153) is left out.
- `FileFinder.ProjectPath` and `Text.Replace` require a non-empty pattern: `String.Replace` throws on an empty one, and `Application.dataPath` is never empty.
- `Editor.OnDrag`: the contract speaks of comments; `EditorBehaviour.PanMovesEverything` states how the nodes move.
- `EditorEvents.CommentPass`: the contract states what each comment keeps and how the event is used. `Comments.ProcessEvents` states each comment's new state.
- `Branch.BranchMarksReachable` states which nodes are marked, not the order in which they are appended to the selection list.

## Findings

| source | as written | input that shows it | evidently intended | confidence | as-written member | corrected member |
|---|---|---|---|---|---|---|
| Assets/AllNodesProject/Editor/NodeEditor/NodeEditorWindow.cs:567-590 | Removing a node leaves `selectedInPoint`/`selectedOutPoint` untouched. | Click node 0's in point, choose "Remove node" on node 0, then click node 1's out point: the window gets a connection to a node it no longer holds. | A pending point on the removed node is dropped with the node. | likely; not executed | EditorBehaviour.RemoveNodeAsWrittenDangles | Editor.RemoveNode |
| Assets/AllNodesProject/Editor/AssemblyView/TypeFileFinder.cs:28-34 | The file-name test is `EndsWith(typeName + ".cs")`, which longer names with the same ending also pass, and the last match wins. | Looking up `Node` among `Assets/Node.cs` and `Assets/TypeNode.cs` returns `Assets/TypeNode.cs`. | Only a file named exactly `<typeName>.cs` matches. | likely; not executed | FileFinder.SuffixPicksLongerName | FileFinder.FindFileNamesType |
| Assets/AllNodesProject/Editor/NodeEditor/NodeEditorWindow.cs:503-519 | `SelectBranch` recurses into every linked node with no record of the nodes already walked. | Two types that refer to each other give two nodes linked both ways; double-clicking one recurses until the stack overflows. | Each node is walked once, so the whole cycle is selected and the walk ends. | likely; not executed | Branch.CycleNeverReturns | Branch.BranchMarksReachable |
