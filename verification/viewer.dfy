/**
 * Seeding the assembly view (AssemblyViewer.cs): one node per reflected
 * type, a name map that keeps the first node per full name, links from
 * each type to the types its members mention, then the lane layout.
 * Reflection itself is an input: each `TypeInfo` carries the traits and
 * the member type names `GetMembers` would report.
 */
module AssemblyView {
  import opened Wrappers
  import opened Geometry
  import opened Anchors
  import opened Links
  import opened Nodes
  import opened Reflection
  import opened TypeNodes
  import opened Selection
  import opened Editor
  import opened Placement

  /** The static `Dictionary<string, Node>`: keys in insertion order, which is the order `Values` yields. */
  datatype NameMap = NameMap(keys: seq<string>, ids: map<string, NodeId>)

  ghost predicate MapOk(m: NameMap) {
    NoDup(m.keys) && forall k :: k in m.ids <==> k in m.keys
  }

  const NoNames := NameMap([], map[])

  /** `if (!nodes.ContainsKey(key)) nodes.Add(key, node)`: the first node stored under a name stays. */
  function Put(m: NameMap, key: string, id: NodeId): (r: NameMap)
    ensures key in r.ids && r.ids[key] == (if key in m.ids then m.ids[key] else id)
    ensures forall k :: k != key ==> (k in r.ids <==> k in m.ids)
    ensures forall k :: k in m.ids ==> k in r.ids && r.ids[k] == m.ids[k]
    ensures MapOk(m) ==> MapOk(r)
  {
    if key in m.ids then m else NameMap(m.keys + [key], m.ids[key := id])
  }

  /** `nodes.Values`. */
  function Values(m: NameMap): (r: seq<NodeId>)
    ensures MapOk(m) ==> |r| == |m.keys| && forall i :: 0 <= i < |r| ==> r[i] == m.ids[m.keys[i]]
    ensures MapOk(m) ==> forall k :: k in m.ids ==> m.ids[k] in r
  {
    var r := seq(|m.keys|, i requires 0 <= i < |m.keys| => if m.keys[i] in m.ids then m.ids[m.keys[i]] else 0);
    assert MapOk(m) ==> forall k :: k in m.ids ==> m.ids[k] in r by {
      forall k | MapOk(m) && k in m.ids
        ensures m.ids[k] in r
      {
        var i :| 0 <= i < |m.keys| && m.keys[i] == k;
        assert r[i] == m.ids[k];
      }
    }
    r
  }

  /** The window, the name map and the list of links made by this viewer. */
  datatype Viewer = Viewer(window: Editor, names: NameMap, links: seq<Connection>)

  /** Seeding stops at the first exception, which `OpenWindow` catches and logs. */
  datatype Outcome = Outcome(v: Viewer, failed: bool)

  /** The ids `n0`, `n0 + 1`, ... given to `count` new nodes. */
  function Fresh(n0: nat, count: nat): (r: seq<NodeId>)
    ensures |r| == count && forall j :: 0 <= j < count ==> r[j] == n0 + j
  {
    seq(count, j requires 0 <= j < count => n0 + j)
  }

  lemma FreshSplit(n0: nat, count: nat)
    ensures Fresh(n0, count + 1) == [n0] + Fresh(n0 + 1, count)
  {
  }

  /**
   * `new TypeNode(type)` for each type in turn, the `k`-th under id
   * `n0 + k`, until one throws: the longest prefix of the types that all
   * get a style.
   */
  function MakeTypeNodes(n0: nat, types: seq<TypeInfo>): (r: seq<Node>)
    ensures |r| <= |types|
    ensures forall j :: 0 <= j < |r| ==>
      StyleIndex(types[j].traits).Some? && r[j] == NewTypeNode(n0 + j, types[j]).value
    ensures |r| < |types| ==> StyleIndex(types[|r|].traits).None?
    decreases |types|
  {
    match if types == [] then None else NewTypeNode(n0, types[0])
    case None => []
    case Some(n) =>
      var r := [n] + MakeTypeNodes(n0 + 1, types[1..]);
      assert forall j :: 1 <= j < |r| ==> types[j] == types[1..][j - 1];
      r
  }

  /** The heap after allocating the made nodes, the `k`-th under id `n0 + k`. */
  function StoreAll(s: map<NodeId, Node>, n0: nat, ns: seq<Node>): (r: map<NodeId, Node>)
    requires forall j :: 0 <= j < |ns| ==> ns[j].id == n0 + j
    ensures forall id :: id in r <==> id in s || n0 <= id < n0 + |ns|
    ensures forall j :: 0 <= j < |ns| ==> r[ns[j].id] == ns[j]
    ensures forall id :: id in s && id < n0 ==> r[id] == s[id]
    decreases |ns|
  {
    if ns == [] then s
    else
      var r := StoreAll(s[n0 := ns[0]], n0 + 1, ns[1..]);
      assert forall j :: 1 <= j < |ns| ==> ns[1..][j - 1] == ns[j];
      r
  }

  /** `if (!nodes.ContainsKey(type.FullName)) nodes.Add(type.FullName, node)` for each made node. */
  function NameAll(m: NameMap, ns: seq<Node>, types: seq<TypeInfo>): (r: NameMap)
    requires |ns| <= |types|
    ensures MapOk(m) ==> MapOk(r)
    ensures forall k :: k in m.ids ==> k in r.ids && r.ids[k] == m.ids[k]
    decreases |ns|
  {
    if ns == [] then m
    else NameAll(if types[0].fullName.Some? then Put(m, types[0].fullName.value, ns[0].id) else m, ns[1..], types[1..])
  }

  /**
   * `CreateNodes`: each type becomes a node added to the window, and the
   * name map gains it under its full name unless that name is null or
   * taken. A type whose style decision throws ends the loop. Allocating,
   * adding and naming touch nothing `new TypeNode` reads, so making every
   * node first and then storing, adding and naming them in the same order
   * gives the same window.
   */
  function CreateNodes(v: Viewer, types: seq<TypeInfo>): Outcome {
    var n0 := v.window.nextId;
    var ns := MakeTypeNodes(n0, types);
    var w := v.window.(store := StoreAll(v.window.store, n0, ns), nodes := v.window.nodes + Fresh(n0, |ns|), nextId := n0 + |ns|);
    Outcome(Viewer(w, NameAll(v.names, ns, types), v.links), |ns| < |types|)
  }

  /**
   * The nodes `CreateNodes` makes are the longest prefix of the types whose
   * style decision does not throw, and it fails exactly when one throws.
   */
  lemma CreateNodesMade(v: Viewer, types: seq<TypeInfo>)
    ensures var r := CreateNodes(v, types);
      var made := r.v.window.nextId - v.window.nextId;
      && 0 <= made <= |types|
      && (r.failed <==> made < |types|)
      && (forall j :: 0 <= j < made ==> StyleIndex(types[j].traits).Some?)
      && (r.failed ==> StyleIndex(types[made].traits).None?)
  {
  }

  /**
   * The window after `CreateNodes`: the made nodes get the next ids in type
   * order, are appended to the node list and are exactly the type nodes of
   * their types; nodes already stored stay as they were.
   */
  lemma CreateNodesStore(v: Viewer, types: seq<TypeInfo>)
    ensures var r := CreateNodes(v, types);
      var made := r.v.window.nextId - v.window.nextId;
      && made >= 0
      && r.v.window.nodes == v.window.nodes + Fresh(v.window.nextId, made)
      && (forall id :: id in r.v.window.store <==> id in v.window.store || v.window.nextId <= id < r.v.window.nextId)
      && (forall j :: 0 <= j < made ==>
            r.v.window.store[v.window.nextId + j] == NewTypeNode(v.window.nextId + j, types[j]).value)
      && (forall id :: id in v.window.store && id < v.window.nextId ==> r.v.window.store[id] == v.window.store[id])
  {
  }

  /**
   * Type nodes are named after their type, so a window whose listed nodes
   * all have names keeps that after `CreateNodes`.
   */
  lemma CreateNodesNamed(v: Viewer, types: seq<TypeInfo>)
    requires forall id :: id in v.window.store ==> id < v.window.nextId
    requires Named(v.window.store, v.window.nodes)
    ensures var w := CreateNodes(v, types).v.window;
      Named(w.store, w.nodes)
  {
    var n0 := v.window.nextId;
    var ns := MakeTypeNodes(n0, types);
    var w := CreateNodes(v, types).v.window;
    assert w.store == StoreAll(v.window.store, n0, ns) && w.nodes == v.window.nodes + Fresh(n0, |ns|);
    forall k | 0 <= k < |w.nodes| && w.nodes[k] in w.store
      ensures w.store[w.nodes[k]].name.Some?
    {
      var id := w.nodes[k];
      if k >= |v.window.nodes| {
        var j := k - |v.window.nodes|;
        assert id == n0 + j && ns[j].id == id;
      } else if id in v.window.store {
        assert w.store[id] == v.window.store[id];
      } else {
        var j := id - n0;
        assert 0 <= j < |ns|;
        assert ns[j].id == id;
      }
    }
  }

  /** `CreateNodes` touches nothing in the window but the heap, the node list and the id counter, and no links. */
  lemma CreateNodesFrame(v: Viewer, types: seq<TypeInfo>)
    ensures var r := CreateNodes(v, types);
      && r.v.window == v.window.(store := r.v.window.store, nodes := r.v.window.nodes, nextId := r.v.window.nextId)
      && r.v.links == v.links
  {
  }

  /** The first type of the list carrying full name `name`. */
  ghost predicate FirstNamed(types: seq<TypeInfo>, j: nat, name: string) {
    j < |types| && types[j].fullName == Some(name)
    && forall i :: 0 <= i < j ==> types[i].fullName != Some(name)
  }

  /** Naming the made nodes: a name is known iff it was known or some made type carries it. */
  lemma {:induction false} NameAllKeys(m: NameMap, ns: seq<Node>, types: seq<TypeInfo>)
    requires |ns| <= |types|
    ensures forall k :: k in NameAll(m, ns, types).ids <==>
      k in m.ids || exists j :: 0 <= j < |ns| && types[j].fullName == Some(k)
    decreases |ns|
  {
    if ns != [] {
      var m1 := if types[0].fullName.Some? then Put(m, types[0].fullName.value, ns[0].id) else m;
      NameAllKeys(m1, ns[1..], types[1..]);
      var r := NameAll(m, ns, types);
      forall k | k in r.ids
        ensures k in m.ids || exists j :: 0 <= j < |ns| && types[j].fullName == Some(k)
      {
        if k !in m.ids {
          if k in m1.ids {
            assert types[0].fullName == Some(k);
          } else {
            var j :| 0 <= j < |ns| - 1 && types[1..][j].fullName == Some(k);
            assert types[j + 1].fullName == Some(k);
          }
        }
      }
      forall k | k in m.ids || exists j :: 0 <= j < |ns| && types[j].fullName == Some(k)
        ensures k in r.ids
      {
        if k !in m.ids {
          var j :| 0 <= j < |ns| && types[j].fullName == Some(k);
          if j > 0 {
            assert types[1..][j - 1].fullName == Some(k);
          }
        }
      }
    }
  }

  /** Naming the made nodes: a new name maps to the node of the first type carrying it. */
  lemma {:induction false} NameAllFirst(m: NameMap, ns: seq<Node>, types: seq<TypeInfo>)
    requires |ns| <= |types|
    ensures var r := NameAll(m, ns, types);
      forall k, j :: k !in m.ids && 0 <= j < |ns| && FirstNamed(types, j, k) ==> k in r.ids && r.ids[k] == ns[j].id
    decreases |ns|
  {
    if ns != [] {
      var m1 := if types[0].fullName.Some? then Put(m, types[0].fullName.value, ns[0].id) else m;
      NameAllFirst(m1, ns[1..], types[1..]);
      var r := NameAll(m, ns, types);
      forall k, j | k !in m.ids && 0 <= j < |ns| && FirstNamed(types, j, k)
        ensures k in r.ids && r.ids[k] == ns[j].id
      {
        if j > 0 {
          assert types[0].fullName != Some(k);
          assert ns[1..][j - 1] == ns[j];
          assert FirstNamed(types[1..], j - 1, k) by {
            forall i | 0 <= i < j - 1
              ensures types[1..][i].fullName != Some(k)
            {
              assert types[1..][i] == types[i + 1];
            }
          }
        }
      }
    }
  }

  /**
   * The name map after `CreateNodes`: a name is known iff it was known or
   * some made type carries it, known names keep their node, and a new
   * name maps to the node of the first type carrying it.
   */
  lemma CreateNodesNames(v: Viewer, types: seq<TypeInfo>)
    requires MapOk(v.names)
    ensures var r := CreateNodes(v, types);
      var made := r.v.window.nextId - v.window.nextId;
      && MapOk(r.v.names)
      && (forall k :: k in r.v.names.ids <==>
            k in v.names.ids || exists j :: 0 <= j < made && types[j].fullName == Some(k))
      && (forall k :: k in v.names.ids ==> r.v.names.ids[k] == v.names.ids[k])
      && (forall k, j :: k !in v.names.ids && 0 <= j < made && FirstNamed(types, j, k) ==>
            r.v.names.ids[k] == v.window.nextId + j)
  {
    NameAllKeys(v.names, MakeTypeNodes(v.window.nextId, types), types);
    NameAllFirst(v.names, MakeTypeNodes(v.window.nextId, types), types);
  }

  /**
   * The link made for member type name `ref` of the type whose node is
   * `parent`: the name is non-null and in the map, its node is not the
   * parent, and the link joins that node's in point to the parent's out
   * point, removable unless the window is read-only.
   */
  ghost predicate IsEdge(m: NameMap, readOnly: bool, parent: NodeId, ref: Option<string>, c: Connection) {
    && ref.Some? && ref.value in m.ids && m.ids[ref.value] != parent
    && c == Connection(Anchor(m.ids[ref.value], In), Anchor(parent, Out), !readOnly)
  }

  /** The links the member type names `refs` of one type give, in order. */
  function RefEdges(m: NameMap, readOnly: bool, parent: NodeId, refs: seq<Option<string>>): (r: seq<Connection>)
    ensures forall c :: c in r <==> exists k :: 0 <= k < |refs| && IsEdge(m, readOnly, parent, refs[k], c)
    decreases |refs|
  {
    if refs == [] then []
    else
      var ref := refs[0];
      var here :=
        if ref.Some? && ref.value in m.ids && m.ids[ref.value] != parent
        then [Connection(Anchor(m.ids[ref.value], In), Anchor(parent, Out), !readOnly)]
        else [];
      var r := here + RefEdges(m, readOnly, parent, refs[1..]);
      assert forall k :: 1 <= k < |refs| ==> refs[k] == refs[1..][k - 1];
      r
  }

  /**
   * The inner loop of `ConnectNodes`: `window.CreateConnection(parent,
   * child)` for each usable member type name, each link also added to
   * `links`. Both lists grow by the same links.
   */
  function ConnectRefs(v: Viewer, parent: NodeId, refs: seq<Option<string>>): (r: Viewer)
    ensures var es := RefEdges(v.names, v.window.readOnly, parent, refs);
      r == v.(window := v.window.(connections := v.window.connections + es), links := v.links + es)
    decreases |refs|
  {
    if refs == [] then
      assert v.window.connections + [] == v.window.connections && v.links + [] == v.links;
      v
    else
      var ref := refs[0];
      var v1 :=
        if ref.Some? && ref.value in v.names.ids && v.names.ids[ref.value] != parent then
          var child := v.names.ids[ref.value];
          v.(window := CreateConnectionBetween(v.window, parent, child),
             links := v.links + [Connection(Anchor(child, In), Anchor(parent, Out), !v.window.readOnly)])
        else v;
      var here := v1.links[|v.links|..];
      assert v1.links == v.links + here && v1.window.connections == v.window.connections + here;
      var rest := RefEdges(v.names, v.window.readOnly, parent, refs[1..]);
      assert RefEdges(v.names, v.window.readOnly, parent, refs) == here + rest;
      assert v.links + here + rest == v.links + (here + rest);
      assert v.window.connections + here + rest == v.window.connections + (here + rest);
      ConnectRefs(v1, parent, refs[1..])
  }

  /** Every type's full name is non-null and in the map, so `nodes[type.FullName]` does not throw. */
  ghost predicate AllNamed(m: NameMap, types: seq<TypeInfo>) {
    forall j :: 0 <= j < |types| ==> types[j].fullName.Some? && types[j].fullName.value in m.ids
  }

  /**
   * The links `ConnectNodes` makes from the name map alone, and whether
   * the loop threw: `nodes[type.FullName]` throws on a null or unknown name.
   */
  function Edges(m: NameMap, readOnly: bool, types: seq<TypeInfo>): (r: (seq<Connection>, bool))
    ensures r.1 <==> !AllNamed(m, types)
    decreases |types|
  {
    if types == [] then ([], false)
    else if types[0].fullName.None? || types[0].fullName.value !in m.ids then ([], true)
    else
      var rest := Edges(m, readOnly, types[1..]);
      assert forall j :: 1 <= j < |types| ==> types[j] == types[1..][j - 1];
      (RefEdges(m, readOnly, m.ids[types[0].fullName.value], types[0].refs) + rest.0, rest.1)
  }

  /** `ConnectNodes`: the outer loop over the types, ending at the first that throws. */
  function ConnectNodes(v: Viewer, types: seq<TypeInfo>): (r: Outcome)
    ensures var es := Edges(v.names, v.window.readOnly, types);
      r == Outcome(v.(window := v.window.(connections := v.window.connections + es.0), links := v.links + es.0), es.1)
    decreases |types|
  {
    if types == [] then
      assert v.window.connections + [] == v.window.connections && v.links + [] == v.links;
      Outcome(v, false)
    else if types[0].fullName.None? || types[0].fullName.value !in v.names.ids then
      assert v.window.connections + [] == v.window.connections && v.links + [] == v.links;
      Outcome(v, true)
    else
      var parent := v.names.ids[types[0].fullName.value];
      var v1 := ConnectRefs(v, parent, types[0].refs);
      var here := RefEdges(v.names, v.window.readOnly, parent, types[0].refs);
      var rest := Edges(v.names, v.window.readOnly, types[1..]).0;
      assert v.links + here + rest == v.links + (here + rest);
      assert v.window.connections + here + rest == v.window.connections + (here + rest);
      ConnectNodes(v1, types[1..])
  }

  /** Some type with a full name in the map has a member type name giving link `c`. */
  ghost predicate EdgeOf(m: NameMap, readOnly: bool, types: seq<TypeInfo>, c: Connection) {
    exists j, k :: 0 <= j < |types| && types[j].fullName.Some? && types[j].fullName.value in m.ids
      && 0 <= k < |types[j].refs| && IsEdge(m, readOnly, m.ids[types[j].fullName.value], types[j].refs[k], c)
  }

  /**
   * The links made are edges of the types, and when the loop did not
   * throw, every edge of the types is made.
   */
  lemma {:induction false} EdgesSpec(m: NameMap, readOnly: bool, types: seq<TypeInfo>)
    ensures var r := Edges(m, readOnly, types);
      && (forall c :: c in r.0 ==> EdgeOf(m, readOnly, types, c))
      && (!r.1 ==> forall c :: EdgeOf(m, readOnly, types, c) ==> c in r.0)
    decreases |types|
  {
    if types != [] && types[0].fullName.Some? && types[0].fullName.value in m.ids {
      var parent := m.ids[types[0].fullName.value];
      var here := RefEdges(m, readOnly, parent, types[0].refs);
      var rest := Edges(m, readOnly, types[1..]);
      EdgesSpec(m, readOnly, types[1..]);
      var r := Edges(m, readOnly, types);
      assert r == (here + rest.0, rest.1);
      forall c | c in r.0
        ensures EdgeOf(m, readOnly, types, c)
      {
        if c in here {
          var k :| 0 <= k < |types[0].refs| && IsEdge(m, readOnly, parent, types[0].refs[k], c);
        } else {
          assert c in rest.0;
          assert EdgeOf(m, readOnly, types[1..], c);
          var j, k :| 0 <= j < |types[1..]| && types[1..][j].fullName.Some? && types[1..][j].fullName.value in m.ids
            && 0 <= k < |types[1..][j].refs| && IsEdge(m, readOnly, m.ids[types[1..][j].fullName.value], types[1..][j].refs[k], c);
          assert types[1..][j] == types[j + 1];
        }
      }
      if !r.1 {
        forall c | EdgeOf(m, readOnly, types, c)
          ensures c in r.0
        {
          var j, k :| 0 <= j < |types| && types[j].fullName.Some? && types[j].fullName.value in m.ids
            && 0 <= k < |types[j].refs| && IsEdge(m, readOnly, m.ids[types[j].fullName.value], types[j].refs[k], c);
          if j == 0 {
            assert c in here;
          } else {
            assert types[1..][j - 1] == types[j];
            assert EdgeOf(m, readOnly, types[1..], c);
          }
        }
      }
    }
  }

  /** A link of the types joins two distinct named nodes, in point to out point, removable iff the window is editable. */
  lemma EdgeShape(m: NameMap, readOnly: bool, types: seq<TypeInfo>, c: Connection)
    requires EdgeOf(m, readOnly, types, c)
    ensures c.inPoint.kind == In && c.outPoint.kind == Out
    ensures c.inPoint.owner != c.outPoint.owner
    ensures c.removable == !readOnly
    ensures exists a :: a in m.ids && m.ids[a] == c.inPoint.owner
    ensures exists b :: b in m.ids && m.ids[b] == c.outPoint.owner
  {
    var j, k :| 0 <= j < |types| && types[j].fullName.Some? && types[j].fullName.value in m.ids
      && 0 <= k < |types[j].refs| && IsEdge(m, readOnly, m.ids[types[j].fullName.value], types[j].refs[k], c);
    assert m.ids[types[j].refs[k].value] == c.inPoint.owner;
    assert m.ids[types[j].fullName.value] == c.outPoint.owner;
  }

  // ---------------------------------------------------------------- OpenWindow

  lemma {:induction false} FirstExists(types: seq<TypeInfo>, j: nat, k: string)
    requires j < |types| && types[j].fullName == Some(k)
    ensures exists i :: 0 <= i <= j && FirstNamed(types, i, k)
    decreases j
  {
    if !FirstNamed(types, j, k) {
      var i :| 0 <= i < j && types[i].fullName == Some(k);
      FirstExists(types, i, k);
    }
  }

  /** Named from an empty map, every name maps to the node of the first type carrying it. */
  lemma FreshNames(ns: seq<Node>, types: seq<TypeInfo>, n0: nat)
    requires |ns| <= |types| && forall j :: 0 <= j < |ns| ==> ns[j].id == n0 + j
    ensures var m := NameAll(NoNames, ns, types);
      && MapOk(m)
      && (forall k :: k in m.ids ==> exists j :: 0 <= j < |ns| && FirstNamed(types, j, k) && m.ids[k] == n0 + j)
  {
    NameAllKeys(NoNames, ns, types);
    NameAllFirst(NoNames, ns, types);
    var m := NameAll(NoNames, ns, types);
    forall k | k in m.ids
      ensures exists j :: 0 <= j < |ns| && FirstNamed(types, j, k) && m.ids[k] == n0 + j
    {
      var j :| 0 <= j < |ns| && types[j].fullName == Some(k);
      FirstExists(types, j, k);
      var i :| 0 <= i <= j && FirstNamed(types, i, k);
    }
  }

  /** Named from an empty map, the `i`-th value is the node of the first type carrying the `i`-th key. */
  lemma ValueFirst(ns: seq<Node>, types: seq<TypeInfo>, n0: nat, i: nat)
    requires |ns| <= |types| && forall j :: 0 <= j < |ns| ==> ns[j].id == n0 + j
    requires i < |NameAll(NoNames, ns, types).keys|
    ensures var m := NameAll(NoNames, ns, types);
      n0 <= Values(m)[i] < n0 + |ns| && FirstNamed(types, Values(m)[i] - n0, m.keys[i])
  {
    FreshNames(ns, types, n0);
    var m := NameAll(NoNames, ns, types);
    var k := m.keys[i];
    assert k in m.ids;
    var j :| 0 <= j < |ns| && FirstNamed(types, j, k) && m.ids[k] == n0 + j;
  }

  /** Named from an empty map, the map's values are distinct ids of made nodes. */
  lemma FreshValues(ns: seq<Node>, types: seq<TypeInfo>, n0: nat)
    requires |ns| <= |types| && forall j :: 0 <= j < |ns| ==> ns[j].id == n0 + j
    ensures var m := NameAll(NoNames, ns, types);
      && MapOk(m)
      && (forall i :: 0 <= i < |Values(m)| ==> n0 <= Values(m)[i] < n0 + |ns|)
      && NoDup(Values(m))
  {
    var m := NameAll(NoNames, ns, types);
    var ids := Values(m);
    forall i | 0 <= i < |ids|
      ensures n0 <= ids[i] < n0 + |ns|
    {
      ValueFirst(ns, types, n0, i);
    }
    forall a, b | 0 <= a < b < |ids|
      ensures ids[a] != ids[b]
    {
      ValueFirst(ns, types, n0, a);
      ValueFirst(ns, types, n0, b);
    }
  }

  /** `PlaceNodes` on the viewer: the map's values laid out by the viewer's links. */
  function Place(v: Viewer): (r: Viewer)
    ensures r == v.(window := r.window) && r.window == v.window.(store := r.window.store)
    ensures r.window.store.Keys == v.window.store.Keys
  {
    v.(window := v.window.(store := PlaceNodes(v.window.store, Values(v.names), v.links)))
  }

  /** After `CreateNodes` from an empty map, the map is well formed and names only stored nodes. */
  lemma CreatedNamesStored(e: Editor, types: seq<TypeInfo>)
    ensures var c := CreateNodes(Viewer(e, NoNames, []), types);
      MapOk(c.v.names) && forall k :: k in c.v.names.ids ==> c.v.names.ids[k] in c.v.window.store
  {
    var ns := MakeTypeNodes(e.nextId, types);
    FreshNames(ns, types, e.nextId);
  }

  /**
   * The `try` block of `OpenWindow` on window `e`: a fresh name map and
   * link list, then `CreateNodes`, `ConnectNodes` and `PlaceNodes` over
   * the map's values. An exception is caught and logged, and what was
   * done before it stays in the window.
   */
  function Seed(e: Editor, types: seq<TypeInfo>): Outcome {
    var c := CreateNodes(Viewer(e, NoNames, []), types);
    if c.failed then c
    else
      var k := ConnectNodes(c.v, types);
      if k.failed then k
      else
        Outcome(Place(k.v), false)
  }

  /** With every style decided, the map knows every non-null full name. */
  lemma AllMadeNamed(e: Editor, types: seq<TypeInfo>)
    requires !CreateNodes(Viewer(e, NoNames, []), types).failed
    ensures AllNamed(CreateNodes(Viewer(e, NoNames, []), types).v.names, types) <==>
      forall j :: 0 <= j < |types| ==> types[j].fullName.Some?
  {
    var ns := MakeTypeNodes(e.nextId, types);
    NameAllKeys(NoNames, ns, types);
  }

  /** Seeding fails iff some type's style decision throws or some type has a null full name. */
  lemma SeedFails(e: Editor, types: seq<TypeInfo>)
    ensures Seed(e, types).failed <==>
      exists j :: 0 <= j < |types| && (StyleIndex(types[j].traits).None? || types[j].fullName.None?)
  {
    if !CreateNodes(Viewer(e, NoNames, []), types).failed {
      AllMadeNamed(e, types);
    }
  }

  /**
   * The links of a seeded window: every one is an edge of the types over
   * the name map, and when seeding succeeded every edge is there.
   */
  lemma SeedConnections(e: Editor, types: seq<TypeInfo>)
    ensures Seed(e, types).v.window.connections == e.connections + Seed(e, types).v.links
  {
    var c := CreateNodes(Viewer(e, NoNames, []), types);
    assert c.v.window.connections == e.connections && c.v.links == [];
    if c.failed {
      assert e.connections + [] == e.connections;
    } else {
      var es := Edges(c.v.names, e.readOnly, types).0;
      assert [] + es == es;
    }
  }

  lemma SeedLinks(e: Editor, types: seq<TypeInfo>)
    ensures var r := Seed(e, types);
      && (forall c :: c in r.v.links ==> EdgeOf(r.v.names, e.readOnly, types, c))
      && (!r.failed ==> forall c :: EdgeOf(r.v.names, e.readOnly, types, c) ==> c in r.v.links)
  {
    var c := CreateNodes(Viewer(e, NoNames, []), types);
    if !c.failed {
      EdgesSpec(c.v.names, e.readOnly, types);
      assert [] + Edges(c.v.names, e.readOnly, types).0 == Edges(c.v.names, e.readOnly, types).0;
    }
  }

  /**
   * A map whose keys are distinct, whose values are distinct, and whose
   * every key maps to id `n0 + j` for the first type `j` carrying it.
   */
  ghost predicate FirstNodes(m: NameMap, types: seq<TypeInfo>, n0: nat) {
    && MapOk(m) && NoDup(Values(m))
    && forall i :: 0 <= i < |m.keys| ==>
         exists j :: 0 <= j < |types| && FirstNamed(types, j, m.keys[i]) && Values(m)[i] == n0 + j
  }

  lemma FreshFirstNodes(ns: seq<Node>, types: seq<TypeInfo>, n0: nat)
    requires |ns| <= |types| && forall j :: 0 <= j < |ns| ==> ns[j].id == n0 + j
    ensures FirstNodes(NameAll(NoNames, ns, types), types, n0)
  {
    FreshValues(ns, types, n0);
    FreshNames(ns, types, n0);
    var m := NameAll(NoNames, ns, types);
    forall i | 0 <= i < |m.keys|
      ensures m.keys[i] in m.ids
    {
    }
  }

  lemma FirstIsValue(ns: seq<Node>, types: seq<TypeInfo>, n0: nat, j: nat)
    requires |ns| <= |types| && forall j :: 0 <= j < |ns| ==> ns[j].id == n0 + j
    requires j < |ns| && types[j].fullName.Some? && FirstNamed(types, j, types[j].fullName.value)
    ensures n0 + j in Values(NameAll(NoNames, ns, types))
  {
    NameAllFirst(NoNames, ns, types);
  }

  lemma ValueIsFirst(ns: seq<Node>, types: seq<TypeInfo>, n0: nat, j: nat)
    requires |ns| <= |types| && forall j :: 0 <= j < |ns| ==> ns[j].id == n0 + j
    requires j < |ns| && n0 + j in Values(NameAll(NoNames, ns, types))
    ensures types[j].fullName.Some? && FirstNamed(types, j, types[j].fullName.value)
  {
    var m := NameAll(NoNames, ns, types);
    var i :| 0 <= i < |Values(m)| && Values(m)[i] == n0 + j;
    ValueFirst(ns, types, n0, i);
  }

  /** Named from an empty map, a made node is a value iff its type is the first carrying its full name. */
  lemma FreshValueFirst(ns: seq<Node>, types: seq<TypeInfo>, n0: nat, j: nat)
    requires |ns| <= |types| && forall j :: 0 <= j < |ns| ==> ns[j].id == n0 + j
    requires j < |ns|
    ensures n0 + j in Values(NameAll(NoNames, ns, types)) <==>
      types[j].fullName.Some? && FirstNamed(types, j, types[j].fullName.value)
  {
    if types[j].fullName.Some? && FirstNamed(types, j, types[j].fullName.value) {
      FirstIsValue(ns, types, n0, j);
    }
    if n0 + j in Values(NameAll(NoNames, ns, types)) {
      ValueIsFirst(ns, types, n0, j);
    }
  }

  /**
   * After `CreateNodes` from an empty map, the node made for type `j` is
   * among the map's values iff that type is the first carrying its full name.
   */
  lemma CreatedValue(e: Editor, types: seq<TypeInfo>, j: nat)
    requires j < CreateNodes(Viewer(e, NoNames, []), types).v.window.nextId - e.nextId
    ensures e.nextId + j in Values(CreateNodes(Viewer(e, NoNames, []), types).v.names) <==>
      types[j].fullName.Some? && FirstNamed(types, j, types[j].fullName.value)
  {
    FreshValueFirst(MakeTypeNodes(e.nextId, types), types, e.nextId, j);
  }

  /** Every type gets a style and has a full name: exactly the inputs on which seeding succeeds. */
  predicate Loadable(types: seq<TypeInfo>) {
    forall j :: 0 <= j < |types| ==> StyleIndex(types[j].traits).Some? && types[j].fullName.Some?
  }

  /**
   * A seeded window is the made window with the links added and the map's
   * values laid out; the names and links are those of the first two steps.
   */
  lemma SeedSteps(e: Editor, types: seq<TypeInfo>)
    requires Loadable(types)
    ensures var c := CreateNodes(Viewer(e, NoNames, []), types).v;
      var r := Seed(e, types).v;
      && r.names == c.names
      && r.links == Edges(c.names, e.readOnly, types).0
      && r.window == c.window.(store := PlaceNodes(c.window.store, Values(c.names), r.links),
                               connections := e.connections + r.links)
  {
    SeedFails(e, types);
    var c := CreateNodes(Viewer(e, NoNames, []), types).v;
    assert [] + Edges(c.names, e.readOnly, types).0 == Edges(c.names, e.readOnly, types).0;
  }

  /**
   * The names of a seeded window: every type's full name is a key, and
   * each key maps to the node made for the first type carrying it.
   */
  lemma SeedNames(e: Editor, types: seq<TypeInfo>)
    requires Loadable(types)
    ensures AllNamed(Seed(e, types).v.names, types)
    ensures FirstNodes(Seed(e, types).v.names, types, e.nextId)
  {
    SeedFails(e, types);
    SeedSteps(e, types);
    FreshFirstNodes(MakeTypeNodes(e.nextId, types), types, e.nextId);
  }

  /** Placement of a seeded window: the made heap laid out over the map's values. */
  lemma SeedPlaces(e: Editor, types: seq<TypeInfo>)
    requires Loadable(types)
    ensures LaidOut(Seed(e, types).v.window.store, CreateNodes(Viewer(e, NoNames, []), types).v.window.store,
                    Values(Seed(e, types).v.names), Seed(e, types).v.links)
  {
    SeedFails(e, types);
    SeedSteps(e, types);
    var c := CreateNodes(Viewer(e, NoNames, []), types).v;
    var ns := MakeTypeNodes(e.nextId, types);
    FreshValues(ns, types, e.nextId);
    PlaceNodesSpec(c.window.store, Values(c.names), Seed(e, types).v.links);
  }
}
