/**
 * Nodes standing for reflected types (TypeNode.cs): the body style is
 * chosen from the type's traits, the name is the short type name and the
 * node keeps the type itself as its reference.
 */
module TypeNodes {
  import opened Wrappers
  import opened Geometry
  import opened Text
  import opened Anchors
  import opened Reflection
  import opened Nodes

  /** The fourteen built-in node styles, plain ones first, then the hex ones. */
  const NodeStyles: seq<string> := [
    "flow node 0", "flow node 1", "flow node 2", "flow node 3",
    "flow node 4", "flow node 5", "flow node 6",
    "flow node hex 0", "flow node hex 1", "flow node hex 2", "flow node hex 3",
    "flow node hex 4", "flow node hex 5", "flow node hex 6"]

  /** The number of plain styles; the decision tree only ever picks one of these. */
  const PlainStyles := 7

  /**
   * The decision tree of the constructor: value type 5, interface 4,
   * delegate 6, then for classes MonoBehaviour 0, ScriptableObject 1,
   * other Unity object 2, anything else 3, and 0 for whatever is left.
   * `type.BaseType.Equals(..)` throws on a type with no base type that is
   * neither a value type nor an interface; that gives None.
   */
  function StyleIndex(t: Traits): (r: Option<nat>)
    ensures r.Some? ==> r.value < PlainStyles
    ensures r.None? <==> !t.isValueType && !t.isInterface && t.baseType == NoBase
    ensures t.isValueType ==> r == Some(5)
    ensures !t.isValueType && t.isInterface ==> r == Some(4)
    ensures !t.isValueType && !t.isInterface && t.baseType == MulticastDelegateBase ==> r == Some(6)
    ensures r.Some? && !t.isValueType && !t.isInterface && t.baseType != MulticastDelegateBase ==>
      (t.isClass && t.subclassOfMonoBehaviour ==> r.value == 0)
      && (t.isClass && !t.subclassOfMonoBehaviour && t.subclassOfScriptableObject ==> r.value == 1)
      && (t.isClass && !t.subclassOfMonoBehaviour && !t.subclassOfScriptableObject && t.subclassOfUnityObject ==> r.value == 2)
      && (t.isClass && !t.subclassOfMonoBehaviour && !t.subclassOfScriptableObject && !t.subclassOfUnityObject ==> r.value == 3)
      && (!t.isClass ==> r.value == 0)
  {
    if t.isValueType then Some(5)
    else if t.isInterface then Some(4)
    else if t.baseType == NoBase then None
    else if t.baseType == MulticastDelegateBase then Some(6)
    else if t.isClass then
      if t.subclassOfMonoBehaviour then Some(0)
      else if t.subclassOfScriptableObject then Some(1)
      else if t.subclassOfUnityObject then Some(2)
      else Some(3)
    else Some(0)
  }

  /** No two styles share a name, so a drawn style tells which rule chose it. */
  lemma StylesDistinct(i: nat, j: nat)
    requires i < |NodeStyles| && j < |NodeStyles| && i != j
    ensures NodeStyles[i] != NodeStyles[j]
  {
    var a, b := NodeStyles[i], NodeStyles[j];
    if |a| == |b| {
      if |a| == 11 {
        assert a[10] != b[10];
      } else {
        assert a[14] != b[14];
      }
    }
  }

  /** `new TypeNode(type)`: a default node named after the type, carrying its style and the type. */
  function NewTypeNode(id: NodeId, t: TypeInfo): (r: Option<Node>)
    ensures r.Some? <==> StyleIndex(t.traits).Some?
    ensures r.Some? ==>
      && WellFormed(r.value) && r.value.id == id && !r.value.selected
      && r.value.rect == Rect(0.0, 0.0, 200.0, 40.0)
      && !r.value.inPoint.clickable && !r.value.outPoint.clickable && !r.value.removable
      && r.value.name == Some(t.name)
      && r.value.kind == Typed(NodeStyles[StyleIndex(t.traits).value], t)
  {
    match StyleIndex(t.traits)
    case None => None
    case Some(i) => Some(NewDefault(id).(name := Some(t.name), kind := Typed(NodeStyles[i], t)))
  }

  /** A type node is never drawn in a hex style, selected or not. */
  lemma TypeNodeStylePlain(id: NodeId, t: TypeInfo)
    requires NewTypeNode(id, t).Some?
    ensures BaseStyle(NewTypeNode(id, t).value) in NodeStyles[..PlainStyles]
    ensures forall k :: PlainStyles <= k < |NodeStyles| ==> BaseStyle(NewTypeNode(id, t).value) != NodeStyles[k]
  {
    var i := StyleIndex(t.traits).value;
    assert NodeStyles[..PlainStyles][i] == NodeStyles[i];
    forall k | PlainStyles <= k < |NodeStyles|
      ensures NodeStyles[i] != NodeStyles[k]
    {
      StylesDistinct(i, k);
    }
  }

  /** `DrawBody`: the drawn style of a type node ends in " on" iff the node is selected. */
  lemma TypeNodeBodyStyle(n: Node, i: nat, t: TypeInfo)
    requires i < PlainStyles && n.kind == Typed(NodeStyles[i], t)
    ensures BodyStyle(n) == (if n.selected then NodeStyles[i] + OnSuffix else NodeStyles[i])
    ensures EndsWith(BodyStyle(n), OnSuffix) <==> n.selected
  {
    assert !EndsWith(NodeStyles[i], OnSuffix) by {
      var s := NodeStyles[i];
      assert s[|s| - 2] == ' ';
    }
    BodyStyleMarksSelection(n);
  }
}
