/**
 * Branch selection (`SelectBranch` in NodeEditorWindow.cs) as a graph walk.
 *
 * From a node, a link is followed when its in point is the node's in point
 * (`up`, control held) or its out point is the node's out point (otherwise);
 * the node reached is the owner of the link's other end. The source recurses
 * with no record of visited nodes and therefore never returns on a cycle;
 * this walk keeps a visited set and expands each node once. Every node
 * reached by a followed link is marked, in the order the source marks them.
 */
module Branch {
  import opened Wrappers
  import opened Anchors
  import opened Links

  predicate Follows(c: Connection, up: bool, n: NodeId) {
    if up then c.inPoint == Anchor(n, In) else c.outPoint == Anchor(n, Out)
  }

  function Next(c: Connection, up: bool): NodeId {
    if up then c.outPoint.owner else c.inPoint.owner
  }

  /** One step of the walk: some link leads from `a` to `b`. */
  ghost predicate Edge(cs: seq<Connection>, up: bool, a: NodeId, b: NodeId) {
    exists i :: 0 <= i < |cs| && Follows(cs[i], up, a) && Next(cs[i], up) == b
  }

  ghost predicate IsPath(cs: seq<Connection>, up: bool, p: seq<NodeId>) {
    |p| >= 1 && forall k :: 0 <= k < |p| - 1 ==> Edge(cs, up, p[k], p[k + 1])
  }

  /** `b` is reachable from `a` in one or more steps. */
  ghost predicate Reaches(cs: seq<Connection>, up: bool, a: NodeId, b: NodeId) {
    exists p :: IsPath(cs, up, p) && |p| >= 2 && p[0] == a && p[|p| - 1] == b
  }

  /** A reachable node is the far end of some link. */
  lemma ReachedIsTarget(cs: seq<Connection>, up: bool, a: NodeId, b: NodeId)
    requires Reaches(cs, up, a, b)
    ensures exists i :: 0 <= i < |cs| && Next(cs[i], up) == b
  {
    var p :| IsPath(cs, up, p) && |p| >= 2 && p[0] == a && p[|p| - 1] == b;
    assert Edge(cs, up, p[|p| - 2], p[|p| - 1]);
  }

  /** Every node some link can lead to. */
  function Targets(cs: seq<Connection>, up: bool): set<NodeId> {
    set i | 0 <= i < |cs| :: Next(cs[i], up)
  }

  datatype Walk = Walk(visited: set<NodeId>, marks: seq<NodeId>)

  lemma {:induction false} SubsetCard(a: set<NodeId>, b: set<NodeId>)
    requires a <= b
    ensures |a| <= |b|
    decreases b
  {
    if a != {} {
      var x :| x in a;
      SubsetCard(a - {x}, b - {x});
    }
  }

  lemma CardShrinks(t: set<NodeId>, v: set<NodeId>, v': set<NodeId>)
    requires v <= v'
    ensures |t - v'| <= |t - v|
  {
    SubsetCard(t - v', t - v);
  }

  lemma CardDrops(t: set<NodeId>, v: set<NodeId>, m: NodeId)
    requires m in t && m !in v
    ensures |t - (v + {m})| < |t - v|
  {
    assert t - v == (t - (v + {m})) + {m};
  }

  /**
   * The loop of `SelectBranch` at node `n` from link `i` on. A followed link
   * marks the node it reaches; that node is then walked unless it was
   * walked before.
   */
  function Scan(cs: seq<Connection>, up: bool, n: NodeId, i: nat, w: Walk): (r: Walk)
    requires i <= |cs|
    ensures w.visited <= r.visited
    ensures w.marks <= r.marks
    ensures forall x :: x in w.marks ==> x in r.marks
    decreases |Targets(cs, up) - w.visited|, |cs| - i
  {
    if i == |cs| then w
    else if Follows(cs[i], up, n) then
      var m := Next(cs[i], up);
      var w1 := w.(marks := w.marks + [m]);
      if m in w.visited then Scan(cs, up, n, i + 1, w1)
      else
        assert m in Targets(cs, up);
        CardDrops(Targets(cs, up), w.visited, m);
        var w2 := Scan(cs, up, m, 0, w1.(visited := w.visited + {m}));
        CardShrinks(Targets(cs, up), w.visited, w2.visited);
        Scan(cs, up, n, i + 1, w2)
    else Scan(cs, up, n, i + 1, w)
  }

  /** The nodes `SelectBranch(root, up)` marks selected, in marking order. */
  function BranchMarks(cs: seq<Connection>, up: bool, root: NodeId): seq<NodeId> {
    Scan(cs, up, root, 0, Walk({root}, [])).marks
  }

  lemma StepReaches(cs: seq<Connection>, up: bool, root: NodeId, n: NodeId, i: nat)
    requires i < |cs| && Follows(cs[i], up, n)
    requires n == root || Reaches(cs, up, root, n)
    ensures Reaches(cs, up, root, Next(cs[i], up))
  {
    var m := Next(cs[i], up);
    assert Edge(cs, up, n, m);
    if n == root {
      var p := [root, m];
      assert IsPath(cs, up, p);
    } else {
      var p :| IsPath(cs, up, p) && |p| >= 2 && p[0] == root && p[|p| - 1] == n;
      var q := p + [m];
      assert forall k :: 0 <= k < |q| - 1 ==> Edge(cs, up, q[k], q[k + 1]) by {
        forall k | 0 <= k < |q| - 1
          ensures Edge(cs, up, q[k], q[k + 1])
        {
          if k < |p| - 1 {
            assert q[k] == p[k] && q[k + 1] == p[k + 1];
          } else {
            assert q[k] == n && q[k + 1] == m;
          }
        }
      }
      assert IsPath(cs, up, q);
    }
  }

  /** Soundness of the walk: everything it visits or marks is reachable from the root. */
  lemma {:induction false} ScanSound(cs: seq<Connection>, up: bool, root: NodeId, n: NodeId, i: nat, w: Walk)
    requires i <= |cs|
    requires n in w.visited
    requires forall v :: v in w.visited ==> v == root || Reaches(cs, up, root, v)
    requires forall x :: x in w.marks ==> Reaches(cs, up, root, x)
    ensures forall v :: v in Scan(cs, up, n, i, w).visited ==> v == root || Reaches(cs, up, root, v)
    ensures forall x :: x in Scan(cs, up, n, i, w).marks ==> Reaches(cs, up, root, x)
    decreases |Targets(cs, up) - w.visited|, |cs| - i, 1
  {
    if i == |cs| {
    } else if Follows(cs[i], up, n) && Next(cs[i], up) !in w.visited {
      ScanSoundDeep(cs, up, root, n, i, w);
    } else if Follows(cs[i], up, n) {
      StepReaches(cs, up, root, n, i);
      ScanSound(cs, up, root, n, i + 1, w.(marks := w.marks + [Next(cs[i], up)]));
    } else {
      ScanSound(cs, up, root, n, i + 1, w);
    }
  }

  /** `ScanSound` at a link leading to a node not yet visited, which is walked first. */
  lemma {:induction false} ScanSoundDeep(cs: seq<Connection>, up: bool, root: NodeId, n: NodeId, i: nat, w: Walk)
    requires i < |cs| && Follows(cs[i], up, n) && Next(cs[i], up) !in w.visited
    requires n in w.visited
    requires forall v :: v in w.visited ==> v == root || Reaches(cs, up, root, v)
    requires forall x :: x in w.marks ==> Reaches(cs, up, root, x)
    ensures forall v :: v in Scan(cs, up, n, i, w).visited ==> v == root || Reaches(cs, up, root, v)
    ensures forall x :: x in Scan(cs, up, n, i, w).marks ==> Reaches(cs, up, root, x)
    decreases |Targets(cs, up) - w.visited|, |cs| - i, 0
  {
    var m := Next(cs[i], up);
    StepReaches(cs, up, root, n, i);
    assert m in Targets(cs, up);
    CardDrops(Targets(cs, up), w.visited, m);
    var w1 := w.(marks := w.marks + [m], visited := w.visited + {m});
    ScanSound(cs, up, root, m, 0, w1);
    var w2 := Scan(cs, up, m, 0, w1);
    CardShrinks(Targets(cs, up), w.visited, w2.visited);
    ScanSound(cs, up, root, n, i + 1, w2);
  }

  /** Every link followed from `v` leads to a marked node. */
  predicate Done(cs: seq<Connection>, up: bool, v: NodeId, marks: seq<NodeId>) {
    forall j :: 0 <= j < |cs| && Follows(cs[j], up, v) ==> Next(cs[j], up) in marks
  }

  /** Every node the walk marks, it also visits. */
  lemma {:induction false} ScanMarksVisited(cs: seq<Connection>, up: bool, n: NodeId, i: nat, w: Walk)
    requires i <= |cs|
    requires forall x :: x in w.marks ==> x in w.visited
    ensures forall x :: x in Scan(cs, up, n, i, w).marks ==> x in Scan(cs, up, n, i, w).visited
    decreases |Targets(cs, up) - w.visited|, |cs| - i, 1
  {
    if i == |cs| {
    } else if Follows(cs[i], up, n) && Next(cs[i], up) !in w.visited {
      ScanMarksVisitedDeep(cs, up, n, i, w);
    } else if Follows(cs[i], up, n) {
      ScanMarksVisited(cs, up, n, i + 1, w.(marks := w.marks + [Next(cs[i], up)]));
    } else {
      ScanMarksVisited(cs, up, n, i + 1, w);
    }
  }

  /** `ScanMarksVisited` at a link leading to a node not yet visited. */
  lemma {:induction false} ScanMarksVisitedDeep(cs: seq<Connection>, up: bool, n: NodeId, i: nat, w: Walk)
    requires i < |cs| && Follows(cs[i], up, n) && Next(cs[i], up) !in w.visited
    requires forall x :: x in w.marks ==> x in w.visited
    ensures forall x :: x in Scan(cs, up, n, i, w).marks ==> x in Scan(cs, up, n, i, w).visited
    decreases |Targets(cs, up) - w.visited|, |cs| - i, 0
  {
    var m := Next(cs[i], up);
    assert m in Targets(cs, up);
    CardDrops(Targets(cs, up), w.visited, m);
    var w1 := w.(marks := w.marks + [m], visited := w.visited + {m});
    ScanMarksVisited(cs, up, m, 0, w1);
    var w2 := Scan(cs, up, m, 0, w1);
    CardShrinks(Targets(cs, up), w.visited, w2.visited);
    ScanMarksVisited(cs, up, n, i + 1, w2);
  }

  /**
   * Closure of the walk: once `n` (on the stack `pending`) is finished, every
   * visited node off the stack, and `n` itself, has all its successors marked.
   */
  lemma {:induction false} ScanClosed(cs: seq<Connection>, up: bool, n: NodeId, i: nat, w: Walk, pending: set<NodeId>)
    requires i <= |cs|
    requires n in pending && n in w.visited
    requires forall v :: v in w.visited && v !in pending ==> Done(cs, up, v, w.marks)
    requires forall j :: 0 <= j < i && Follows(cs[j], up, n) ==> Next(cs[j], up) in w.marks
    ensures forall v :: v in Scan(cs, up, n, i, w).visited && (v !in pending || v == n) ==>
      Done(cs, up, v, Scan(cs, up, n, i, w).marks)
    decreases |Targets(cs, up) - w.visited|, |cs| - i, 2
  {
    if i == |cs| {
    } else if Follows(cs[i], up, n) && Next(cs[i], up) !in w.visited {
      ScanClosedDeep(cs, up, n, i, w, pending);
    } else if Follows(cs[i], up, n) {
      ScanClosed(cs, up, n, i + 1, w.(marks := w.marks + [Next(cs[i], up)]), pending);
    } else {
      ScanClosed(cs, up, n, i + 1, w, pending);
    }
  }

  /** Once the node `m` pushed on the stack is finished, closure holds off the old stack. */
  lemma PopPending(cs: seq<Connection>, up: bool, pending: set<NodeId>, m: NodeId, w: Walk)
    requires forall v :: v in w.visited && (v !in pending + {m} || v == m) ==> Done(cs, up, v, w.marks)
    ensures forall v :: v in w.visited && v !in pending ==> Done(cs, up, v, w.marks)
  {
    forall v | v in w.visited && v !in pending
      ensures Done(cs, up, v, w.marks)
    {
      assert v !in pending + {m} || v == m;
    }
  }

  /** Marking the node link `i` leads to finishes links `0 .. i` of `n`. */
  lemma LinkDone(cs: seq<Connection>, up: bool, n: NodeId, i: nat, marks: seq<NodeId>, marks': seq<NodeId>)
    requires i < |cs| && Next(cs[i], up) in marks'
    requires forall x :: x in marks ==> x in marks'
    requires forall j :: 0 <= j < i && Follows(cs[j], up, n) ==> Next(cs[j], up) in marks
    ensures forall j :: 0 <= j < i + 1 && Follows(cs[j], up, n) ==> Next(cs[j], up) in marks'
  {
  }

  /** `ScanClosed` at a link leading to a node not yet visited, walked with that node on the stack. */
  lemma {:induction false} ScanClosedDeep(cs: seq<Connection>, up: bool, n: NodeId, i: nat, w: Walk, pending: set<NodeId>)
    requires i < |cs| && Follows(cs[i], up, n) && Next(cs[i], up) !in w.visited
    requires n in pending && n in w.visited
    requires forall v :: v in w.visited && v !in pending ==> Done(cs, up, v, w.marks)
    requires forall j :: 0 <= j < i && Follows(cs[j], up, n) ==> Next(cs[j], up) in w.marks
    ensures forall v :: v in Scan(cs, up, n, i, w).visited && (v !in pending || v == n) ==>
      Done(cs, up, v, Scan(cs, up, n, i, w).marks)
    decreases |Targets(cs, up) - w.visited|, |cs| - i, 1
  {
    var m := Next(cs[i], up);
    var w2 := Scan(cs, up, m, 0, w.(marks := w.marks + [m], visited := w.visited + {m}));
    ChildClosed(cs, up, n, i, w, pending);
    CardShrinks(Targets(cs, up), w.visited, w2.visited);
    ScanClosed(cs, up, n, i + 1, w2, pending);
  }

  /**
   * Walking the node link `i` leads to closes it and everything it visits,
   * and finishes links `0 .. i` of `n`.
   */
  lemma {:induction false} ChildClosed(cs: seq<Connection>, up: bool, n: NodeId, i: nat, w: Walk, pending: set<NodeId>)
    requires i < |cs| && Follows(cs[i], up, n) && Next(cs[i], up) !in w.visited
    requires n in pending && n in w.visited
    requires forall v :: v in w.visited && v !in pending ==> Done(cs, up, v, w.marks)
    requires forall j :: 0 <= j < i && Follows(cs[j], up, n) ==> Next(cs[j], up) in w.marks
    ensures var m := Next(cs[i], up);
      var w2 := Scan(cs, up, m, 0, w.(marks := w.marks + [m], visited := w.visited + {m}));
      && (forall v :: v in w2.visited && v !in pending ==> Done(cs, up, v, w2.marks))
      && (forall j :: 0 <= j < i + 1 && Follows(cs[j], up, n) ==> Next(cs[j], up) in w2.marks)
    decreases |Targets(cs, up) - w.visited|, |cs| - i, 0
  {
    var m := Next(cs[i], up);
    assert m in Targets(cs, up);
    CardDrops(Targets(cs, up), w.visited, m);
    var w1 := w.(marks := w.marks + [m], visited := w.visited + {m});
    ScanClosed(cs, up, m, 0, w1, pending + {m});
    var w2 := Scan(cs, up, m, 0, w1);
    assert m in w2.marks by { assert w2.marks[|w.marks|] == m; }
    PopPending(cs, up, pending, m, w2);
    LinkDone(cs, up, n, i, w.marks, w2.marks);
  }

  lemma {:induction false} PathMarked(cs: seq<Connection>, up: bool, w: Walk, p: seq<NodeId>, k: nat)
    requires IsPath(cs, up, p) && 1 <= k < |p|
    requires p[0] in w.visited
    requires forall x :: x in w.marks ==> x in w.visited
    requires forall v :: v in w.visited ==> Done(cs, up, v, w.marks)
    ensures p[k] in w.marks
  {
    assert Edge(cs, up, p[k - 1], p[k]);
    if k > 1 {
      PathMarked(cs, up, w, p, k - 1);
    }
    var j :| 0 <= j < |cs| && Follows(cs[j], up, p[k - 1]) && Next(cs[j], up) == p[k];
    assert Done(cs, up, p[k - 1], w.marks);
  }

  /** Branch selection marks exactly the nodes reachable from the root, cycles included. */
  lemma BranchMarksReachable(cs: seq<Connection>, up: bool, root: NodeId)
    ensures forall b :: b in BranchMarks(cs, up, root) <==> Reaches(cs, up, root, b)
  {
    var w0 := Walk({root}, []);
    var r := Scan(cs, up, root, 0, w0);
    ScanSound(cs, up, root, root, 0, w0);
    ScanMarksVisited(cs, up, root, 0, w0);
    ScanClosed(cs, up, root, 0, w0, {root});
    forall b | Reaches(cs, up, root, b)
      ensures b in r.marks
    {
      var p :| IsPath(cs, up, p) && |p| >= 2 && p[0] == root && p[|p| - 1] == b;
      PathMarked(cs, up, r, p, |p| - 1);
    }
  }

  /**
   * `SelectBranch` as written: for each link that leaves `n` the far node is
   * marked and walked at once, then the loop goes on, with no record of the
   * nodes already walked. `fuel` bounds the depth of the recursion; `None`
   * means the walk needed more than `fuel` nested calls.
   */
  function SelectBranchAsWritten(cs: seq<Connection>, up: bool, n: NodeId, i: nat, fuel: nat): Option<seq<NodeId>>
    requires i <= |cs|
    decreases fuel, |cs| - i
  {
    if i == |cs| then Some([])
    else if !Follows(cs[i], up, n) then SelectBranchAsWritten(cs, up, n, i + 1, fuel)
    else if fuel == 0 then None
    else
      var m := Next(cs[i], up);
      var sub := SelectBranchAsWritten(cs, up, m, 0, fuel - 1);
      var rest := SelectBranchAsWritten(cs, up, n, i + 1, fuel);
      if sub.None? || rest.None? then None else Some([m] + sub.value + rest.value)
  }

  /** Two nodes linked both ways: 0 feeds 1 and 1 feeds 0. */
  function TwoCycle(): seq<Connection> {
    [Connection(Anchor(0, In), Anchor(1, Out), true), Connection(Anchor(1, In), Anchor(0, Out), true)]
  }

  /** On a cycle the recursion as written never returns, however deep the stack. */
  lemma {:induction false} CycleNeverReturns(fuel: nat)
    ensures SelectBranchAsWritten(TwoCycle(), false, 0, 0, fuel).None?
    ensures SelectBranchAsWritten(TwoCycle(), false, 1, 0, fuel).None?
  {
    if fuel > 0 {
      CycleNeverReturns(fuel - 1);
    }
  }

  /** The walk with a visited set returns on the same cycle and selects both nodes. */
  lemma CycleSelectsBoth()
    ensures 0 in BranchMarks(TwoCycle(), false, 0) && 1 in BranchMarks(TwoCycle(), false, 0)
  {
    var cs := TwoCycle();
    BranchMarksReachable(cs, false, 0);
    assert Edge(cs, false, 0, 1) by { assert Follows(cs[1], false, 0) && Next(cs[1], false) == 1; }
    assert Edge(cs, false, 1, 0) by { assert Follows(cs[0], false, 1) && Next(cs[0], false) == 0; }
    assert IsPath(cs, false, [0, 1]);
    assert IsPath(cs, false, [0, 1, 0]);
  }
}
