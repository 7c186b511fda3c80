/**
 * The automatic layout of the assembly view (`PlaceNodes` in
 * AssemblyViewer.cs). A node with no link into its in point is a root, one
 * with no link out of its out point a tail. Roots go to x = 0, interior
 * nodes to 400, tails to 800 and nodes that are both to 1200; each lane
 * stacks its nodes 50 apart in the order they are visited.
 */
module Placement {
  import opened Geometry
  import opened Anchors
  import opened Links
  import opened Nodes
  import opened Selection

  /**
   * The loop over the links for one node: `root` drops when a link's in
   * point is the node's in point, `tail` when a link's out point is its out point.
   */
  function RootTail(links: seq<Connection>, id: NodeId): (r: (bool, bool))
    ensures r.0 <==> forall k :: 0 <= k < |links| ==> links[k].inPoint != Anchor(id, In)
    ensures r.1 <==> forall k :: 0 <= k < |links| ==> links[k].outPoint != Anchor(id, Out)
    decreases |links|
  {
    if links == [] then (true, true)
    else
      var rest := RootTail(links[1..], id);
      assert forall k :: 1 <= k < |links| ==> links[k] == links[1..][k - 1];
      (rest.0 && links[0].inPoint != Anchor(id, In), rest.1 && links[0].outPoint != Anchor(id, Out))
  }

  datatype Lane = Sole | RootLane | TailLane | Interior

  /** The four-way branch: root and tail, root only, tail only, neither. */
  function LaneOf(links: seq<Connection>, id: NodeId): Lane {
    var (root, tail) := RootTail(links, id);
    if root && tail then Sole
    else if root then RootLane
    else if tail then TailLane
    else Interior
  }

  /** Every node falls into exactly one lane, decided by the two link tests alone. */
  lemma LaneCases(links: seq<Connection>, id: NodeId)
    ensures var root := forall k :: 0 <= k < |links| ==> links[k].inPoint != Anchor(id, In);
      var tail := forall k :: 0 <= k < |links| ==> links[k].outPoint != Anchor(id, Out);
      && (LaneOf(links, id) == Sole <==> root && tail)
      && (LaneOf(links, id) == RootLane <==> root && !tail)
      && (LaneOf(links, id) == TailLane <==> !root && tail)
      && (LaneOf(links, id) == Interior <==> !root && !tail)
  {
    var _ := RootTail(links, id);
  }

  function LaneX(l: Lane): real {
    match l
    case Sole => 6.0 * 200.0
    case RootLane => 0.0
    case TailLane => 4.0 * 200.0
    case Interior => 2.0 * 200.0
  }

  const RowHeight := 50.0

  /** The four counters `rootCount`, `tailCount`, `midCount`, `soleCount`. */
  datatype Counters = Counters(root: nat, tail: nat, mid: nat, sole: nat) {
    function Of(l: Lane): nat {
      match l
      case Sole => sole
      case RootLane => root
      case TailLane => tail
      case Interior => mid
    }

    function Bump(l: Lane): (c: Counters)
      ensures c.Of(l) == Of(l) + 1
      ensures forall m :: m != l ==> c.Of(m) == Of(m)
    {
      match l
      case Sole => this.(sole := sole + 1)
      case RootLane => this.(root := root + 1)
      case TailLane => this.(tail := tail + 1)
      case Interior => this.(mid := mid + 1)
    }
  }

  /** How many of `ids` are in lane `l`. */
  function LaneCount(links: seq<Connection>, ids: seq<NodeId>, l: Lane): nat
    decreases |ids|
  {
    if ids == [] then 0
    else LaneCount(links, ids[..|ids| - 1], l) + (if LaneOf(links, ids[|ids| - 1]) == l then 1 else 0)
  }

  /** Where a node of lane `l` goes when `row` nodes of that lane came before it. */
  function Place(n: Node, l: Lane, row: nat): Node {
    n.(rect := n.rect.(x := LaneX(l), y := RowHeight * row as real))
  }

  /**
   * The loop of `PlaceNodes` from the `i`-th node on, with the counters so
   * far. The loop walks node objects, so every one it meets exists; an id
   * missing from the heap is passed over.
   */
  function PlaceFrom(store: map<NodeId, Node>, ids: seq<NodeId>, links: seq<Connection>, i: nat, c: Counters): (r: map<NodeId, Node>)
    requires i <= |ids|
    ensures r.Keys == store.Keys
    decreases |ids| - i
  {
    if i == |ids| then store
    else if ids[i] !in store then PlaceFrom(store, ids, links, i + 1, c)
    else
      var id := ids[i];
      var l := LaneOf(links, id);
      PlaceFrom(store[id := Place(store[id], l, c.Of(l))], ids, links, i + 1, c.Bump(l))
  }

  /** `PlaceNodes`: every node of `ids` (the name map's values, in order) placed in its lane. */
  function PlaceNodes(store: map<NodeId, Node>, ids: seq<NodeId>, links: seq<Connection>): (r: map<NodeId, Node>)
    ensures r.Keys == store.Keys
  {
    PlaceFrom(store, ids, links, 0, Counters(0, 0, 0, 0))
  }

  /** The row of the `k`-th node: the number of earlier nodes in its lane. */
  function Row(links: seq<Connection>, ids: seq<NodeId>, k: nat): nat
    requires k < |ids|
  {
    LaneCount(links, ids[..k], LaneOf(links, ids[k]))
  }

  lemma LaneCountStep(links: seq<Connection>, ids: seq<NodeId>, i: nat, l: Lane)
    requires i < |ids|
    ensures LaneCount(links, ids[..i + 1], l) == LaneCount(links, ids[..i], l) + (if LaneOf(links, ids[i]) == l then 1 else 0)
  {
    assert ids[..i + 1][..i] == ids[..i];
  }

  /**
   * The counters hold the lane counts of the prefix already visited, so the
   * loop places the `k`-th node at its lane's x and at row `Row(k)`.
   */
  lemma {:induction false} PlaceFromSpec(store: map<NodeId, Node>, ids: seq<NodeId>, links: seq<Connection>, i: nat, c: Counters)
    requires i <= |ids| && (forall k :: 0 <= k < |ids| ==> ids[k] in store) && NoDup(ids)
    requires forall l :: c.Of(l) == LaneCount(links, ids[..i], l)
    ensures var r := PlaceFrom(store, ids, links, i, c);
      && (forall k :: i <= k < |ids| ==> r[ids[k]] == Place(store[ids[k]], LaneOf(links, ids[k]), Row(links, ids, k)))
      && (forall id :: id in store && id !in ids[i..] ==> r[id] == store[id])
    decreases |ids| - i
  {
    if i < |ids| {
      var id := ids[i];
      var l := LaneOf(links, id);
      var s1 := store[id := Place(store[id], l, c.Of(l))];
      var c1 := c.Bump(l);
      forall m
        ensures c1.Of(m) == LaneCount(links, ids[..i + 1], m)
      {
        LaneCountStep(links, ids, i, m);
      }
      PlaceFromSpec(s1, ids, links, i + 1, c1);
      var r := PlaceFrom(s1, ids, links, i + 1, c1);
      forall k | i <= k < |ids|
        ensures r[ids[k]] == Place(store[ids[k]], LaneOf(links, ids[k]), Row(links, ids, k))
      {
        if k == i {
          assert id !in ids[i + 1..];
        } else {
          assert ids[k] != id;
          assert ids[k] in ids[i + 1..] by { assert ids[i + 1..][k - i - 1] == ids[k]; }
        }
      }
      forall x | x in store && x !in ids[i..]
        ensures r[x] == store[x]
      {
        assert x != id by { assert ids[i..][0] == id; }
        assert x !in ids[i + 1..];
      }
    }
  }

  /**
   * `r` is heap `s` laid out over `ids`: each listed node moves to its
   * lane's x and its row's y and keeps its size and everything else, and
   * unlisted nodes stay as they were.
   */
  ghost predicate LaidOut(r: map<NodeId, Node>, s: map<NodeId, Node>, ids: seq<NodeId>, links: seq<Connection>) {
    && r.Keys == s.Keys
    && (forall k :: 0 <= k < |ids| ==> ids[k] in s)
    && (forall k :: 0 <= k < |ids| ==>
          r[ids[k]].rect == Rect(LaneX(LaneOf(links, ids[k])), RowHeight * Row(links, ids, k) as real,
                                 s[ids[k]].rect.w, s[ids[k]].rect.h)
          && r[ids[k]].(rect := s[ids[k]].rect) == s[ids[k]])
    && (forall id :: id in s && id !in ids ==> r[id] == s[id])
  }

  /** The placement promised by `PlaceNodes`, for distinct stored ids. */
  lemma PlaceNodesSpec(store: map<NodeId, Node>, ids: seq<NodeId>, links: seq<Connection>)
    requires (forall k :: 0 <= k < |ids| ==> ids[k] in store) && NoDup(ids)
    ensures LaidOut(PlaceNodes(store, ids, links), store, ids, links)
  {
    PlaceFromSpec(store, ids, links, 0, Counters(0, 0, 0, 0));
    assert ids[0..] == ids;
  }

  lemma {:induction false} LaneCountGrows(links: seq<Connection>, ids: seq<NodeId>, j: nat, k: nat, l: Lane)
    requires j < k <= |ids| && LaneOf(links, ids[j]) == l
    ensures LaneCount(links, ids[..j], l) < LaneCount(links, ids[..k], l)
    decreases k - j
  {
    LaneCountStep(links, ids, k - 1, l);
    if j < k - 1 {
      LaneCountGrows(links, ids, j, k - 1, l);
    }
  }

  /** Within one lane the rows follow visiting order, so no two nodes of a lane share a y. */
  lemma RowsIncrease(links: seq<Connection>, ids: seq<NodeId>, j: nat, k: nat)
    requires j < k < |ids| && LaneOf(links, ids[j]) == LaneOf(links, ids[k])
    ensures Row(links, ids, j) < Row(links, ids, k)
  {
    LaneCountGrows(links, ids, j, k, LaneOf(links, ids[j]));
  }

  /** Rows start at zero and are dense: the `n` nodes of a lane take rows 0 .. n - 1. */
  lemma {:induction false} RowBelowCount(links: seq<Connection>, ids: seq<NodeId>, k: nat)
    requires k < |ids|
    ensures Row(links, ids, k) < LaneCount(links, ids, LaneOf(links, ids[k]))
  {
    LaneCountGrows(links, ids, k, |ids|, LaneOf(links, ids[k]));
    assert ids[..|ids|] == ids;
  }
}
