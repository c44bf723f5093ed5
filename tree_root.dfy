/**
 * What GetTreeRoot decides about a graph: node ids are 0 .. n-1 in the graph's node order,
 * edges are (source, target) pairs in the graph's edge order. The graph is a tree when every
 * node has at most one in-edge, exactly one node has none, and every node's parent chain
 * ends at that node.
 */
module TreeRoot {
  import opened Wrappers

  /** (source, target) */
  type Edge = (nat, nat)

  /** The exceptions GetTreeRoot and BuildBinaryTree throw, one constructor per message. */
  datatype TreeError =
    | MultipleParents(node: nat)
    | Cycle
    | MultipleRoots
    | TooManyChildren(node: nat, count: nat)

  predicate EdgesIn(n: nat, edges: seq<Edge>) {
    forall i | 0 <= i < |edges| :: edges[i].0 < n && edges[i].1 < n
  }

  predicate TargetsDistinct(edges: seq<Edge>) {
    forall i, j | 0 <= i < j < |edges| :: edges[i].1 != edges[j].1
  }

  predicate HasInEdge(edges: seq<Edge>, v: nat) {
    exists i | 0 <= i < |edges| :: edges[i].1 == v
  }

  /** Parent slots whose parents are nodes. */
  predicate ParentsIn(p: seq<Option<nat>>) {
    forall v | 0 <= v < |p| && p[v].Some? :: p[v].value < |p|
  }

  /** The parent of every node, recording edges in order; a second in-edge is an error. */
  function ParentScan(n: nat, edges: seq<Edge>): (r: Result<seq<Option<nat>>, TreeError>)
    requires EdgesIn(n, edges)
    ensures r.Success? ==> |r.value| == n && ParentsIn(r.value)
  {
    if |edges| == 0 then Success(seq(n, _ => None))
    else
      var prev := ParentScan(n, edges[..|edges| - 1]);
      var e := edges[|edges| - 1];
      if prev.Failure? then prev
      else if prev.value[e.1].Some? then Failure(MultipleParents(e.1))
      else Success(prev.value[e.1 := Some(e.0)])
  }

  /** On success the scan records each edge's source as its target's parent, and leaves empty exactly the nodes without an in-edge. */
  lemma {:induction false} ParentScanRecords(n: nat, edges: seq<Edge>)
    requires EdgesIn(n, edges) && ParentScan(n, edges).Success?
    ensures var p := ParentScan(n, edges).value;
      && (forall i | 0 <= i < |edges| :: p[edges[i].1] == Some(edges[i].0))
      && (forall v | 0 <= v < n :: p[v].None? <==> !HasInEdge(edges, v))
  {
    if |edges| > 0 {
      var init := edges[..|edges| - 1];
      var e := edges[|edges| - 1];
      assert EdgesIn(n, init) by {
        forall i | 0 <= i < |init|
          ensures init[i].0 < n && init[i].1 < n
        {
          assert init[i] == edges[i];
        }
      }
      ParentScanRecords(n, init);
      var prev := ParentScan(n, init).value;
      var p := ParentScan(n, edges).value;
      assert p == prev[e.1 := Some(e.0)];
      forall i | 0 <= i < |edges|
        ensures p[edges[i].1] == Some(edges[i].0)
      {
        if i < |init| {
          assert edges[i] == init[i];
          assert init[i].1 != e.1;
        }
      }
      forall v | 0 <= v < n
        ensures p[v].None? <==> !HasInEdge(edges, v)
      {
        if v != e.1 {
          if HasInEdge(edges, v) {
            var i :| 0 <= i < |edges| && edges[i].1 == v;
            assert init[i] == edges[i];
          }
          if HasInEdge(init, v) {
            var i :| 0 <= i < |init| && init[i].1 == v;
            assert init[i] == edges[i];
          }
        } else {
          assert edges[|edges| - 1].1 == v;
        }
      }
    }
  }

  /** The scan succeeds exactly when no two edges share a target. */
  lemma {:induction false} ParentScanSucceeds(n: nat, edges: seq<Edge>)
    requires EdgesIn(n, edges)
    ensures ParentScan(n, edges).Success? <==> TargetsDistinct(edges)
  {
    if |edges| > 0 {
      var init := edges[..|edges| - 1];
      var e := edges[|edges| - 1];
      assert EdgesIn(n, init) by {
        forall i | 0 <= i < |init|
          ensures init[i].0 < n && init[i].1 < n
        {
          assert init[i] == edges[i];
        }
      }
      ParentScanSucceeds(n, init);
      var prev := ParentScan(n, init);
      if prev.Failure? {
        var i, j :| 0 <= i < j < |init| && init[i].1 == init[j].1;
        assert edges[i] == init[i] && edges[j] == init[j];
      } else if prev.value[e.1].Some? {
        ParentScanRecords(n, init);
        var j :| 0 <= j < |init| && init[j].1 == e.1;
        assert edges[j] == init[j];
        assert edges[j].1 == edges[|edges| - 1].1;
      } else {
        ParentScanRecords(n, init);
        assert edges == init + [e];
        DistinctExtend(init, e);
      }
    }
  }

  /** Appending an edge to a fresh target keeps the targets distinct. */
  lemma DistinctExtend(init: seq<Edge>, e: Edge)
    requires TargetsDistinct(init) && !HasInEdge(init, e.1)
    ensures TargetsDistinct(init + [e])
  {
    var edges := init + [e];
    forall i, j | 0 <= i < j < |edges|
      ensures edges[i].1 != edges[j].1
    {
      assert edges[i] == init[i];
      if j < |init| {
        assert edges[j] == init[j];
      }
    }
  }

  /** The scan fails at the first edge whose target already had an in-edge, naming that target. */
  lemma {:induction false} ParentScanFails(n: nat, edges: seq<Edge>)
    requires EdgesIn(n, edges) && ParentScan(n, edges).Failure?
    ensures exists i, j | 0 <= j < i < |edges| ::
      && edges[j].1 == edges[i].1
      && TargetsDistinct(edges[..i])
      && ParentScan(n, edges).error == MultipleParents(edges[i].1)
  {
    var init := edges[..|edges| - 1];
    var e := edges[|edges| - 1];
    assert EdgesIn(n, init) by {
      forall i | 0 <= i < |init|
        ensures init[i].0 < n && init[i].1 < n
      {
        assert init[i] == edges[i];
      }
    }
    var prev := ParentScan(n, init);
    if prev.Failure? {
      ParentScanFails(n, init);
      var i, j :| 0 <= j < i < |init| && init[j].1 == init[i].1 && TargetsDistinct(init[..i])
        && prev.error == MultipleParents(init[i].1);
      assert init[..i] == edges[..i];
      assert edges[i] == init[i] && edges[j] == init[j];
    } else {
      ParentScanRecords(n, init);
      ParentScanSucceeds(n, init);
      var j :| 0 <= j < |init| && init[j].1 == e.1;
      assert edges[j] == init[j];
      assert edges[..|edges| - 1] == init;
    }
  }

  /**
   * The scan succeeds exactly when no two edges share a target; it then records each edge's
   * source as its target's parent, and leaves empty exactly the nodes without an in-edge.
   * It fails at the first edge whose target already had an in-edge, naming that target.
   */
  lemma ParentScanSpec(n: nat, edges: seq<Edge>)
    requires EdgesIn(n, edges)
    ensures ParentScan(n, edges).Success? <==> TargetsDistinct(edges)
    ensures ParentScan(n, edges).Success? ==>
      var p := ParentScan(n, edges).value;
      && (forall i | 0 <= i < |edges| :: p[edges[i].1] == Some(edges[i].0))
      && (forall v | 0 <= v < n :: p[v].None? <==> !HasInEdge(edges, v))
    ensures ParentScan(n, edges).Failure? ==>
      exists i, j | 0 <= j < i < |edges| ::
        && edges[j].1 == edges[i].1
        && TargetsDistinct(edges[..i])
        && ParentScan(n, edges).error == MultipleParents(edges[i].1)
  {
    ParentScanSucceeds(n, edges);
    if ParentScan(n, edges).Success? {
      ParentScanRecords(n, edges);
    } else {
      ParentScanFails(n, edges);
    }
  }

  /** `k` steps up the parent chain from `v`, staying put at a node without a parent. */
  function Up(p: seq<Option<nat>>, v: nat, k: nat): (u: nat)
    requires ParentsIn(p) && v < |p|
    ensures u < |p|
    decreases k
  {
    if k == 0 || p[v].None? then v else Up(p, p[v].value, k - 1)
  }

  ghost predicate ReachesRoot(p: seq<Option<nat>>, v: nat, root: nat)
    requires ParentsIn(p) && v < |p|
  {
    exists k: nat :: Up(p, v, k) == root
  }

  function Roots(p: seq<Option<nat>>): set<nat> {
    set v | 0 <= v < |p| && p[v].None?
  }

  /**
   * The outcome GetTreeRoot computes: the first edge giving a node a second in-edge, then
   * no parentless node (a cycle), then several, then a node whose parent chain never meets
   * the root (a cycle again); otherwise the one parentless node.
   */
  ghost function TreeRootSpec(n: nat, edges: seq<Edge>): Result<nat, TreeError>
    requires EdgesIn(n, edges)
  {
    var scan := ParentScan(n, edges);
    if scan.Failure? then Failure(scan.error)
    else
      var p := scan.value;
      var roots := Roots(p);
      if |roots| == 0 then Failure(Cycle)
      else if |roots| > 1 then Failure(MultipleRoots)
      else
        var root :| root in roots;
        if forall v | 0 <= v < n :: ReachesRoot(p, v, root) then Success(root) else Failure(Cycle)
  }

  // ---------------------------------------------------------------------------
  // Facts about parent chains.

  lemma SingletonMember(s: set<nat>, a: nat, b: nat)
    requires |s| == 1 && a in s && b in s
    ensures a == b
  {
    var rest := s - {a};
    assert |rest| == 0;
  }

  /** Stepping to the parent keeps the root reachable. */
  lemma StepReach(p: seq<Option<nat>>, v: nat, root: nat)
    requires ParentsIn(p) && v < |p| && p[v].Some?
    requires ReachesRoot(p, p[v].value, root)
    ensures ReachesRoot(p, v, root)
  {
    var k: nat :| Up(p, p[v].value, k) == root;
    assert Up(p, v, k + 1) == root;
  }

  /** A set of nodes each of whose parents is again in the set: the chains never leave it. */
  predicate ParentClosed(p: seq<Option<nat>>, s: set<nat>) {
    forall x | x in s :: x < |p| && p[x].Some? && p[x].value in s
  }

  lemma {:induction false} ClosedStaysIn(p: seq<Option<nat>>, s: set<nat>, v: nat, k: nat)
    requires ParentsIn(p) && ParentClosed(p, s) && v in s
    ensures Up(p, v, k) in s
    decreases k
  {
    if k > 0 {
      ClosedStaysIn(p, s, p[v].value, k - 1);
    }
  }

  /** A node on a parent-closed set of nodes never reaches a parentless node. */
  lemma ClosedNeverRoots(p: seq<Option<nat>>, s: set<nat>, v: nat, root: nat)
    requires ParentsIn(p) && ParentClosed(p, s) && v in s && root < |p| && p[root].None?
    ensures !ReachesRoot(p, v, root)
  {
    if ReachesRoot(p, v, root) {
      var k: nat :| Up(p, v, k) == root;
      ClosedStaysIn(p, s, v, k);
    }
  }

  /**
   * A root found by TreeRootSpec is the graph's only parentless node, every other node has
   * exactly one in-edge, and no set of nodes closes a cycle of parent links.
   */
  lemma RootedIsAcyclic(n: nat, edges: seq<Edge>)
    requires EdgesIn(n, edges)
    requires TreeRootSpec(n, edges).Success?
    ensures var root := TreeRootSpec(n, edges).value;
      && root < n
      && !HasInEdge(edges, root)
      && TargetsDistinct(edges)
      && (forall v | 0 <= v < n && v != root :: HasInEdge(edges, v))
      && (forall s: set<nat> | ParentClosed(ParentScan(n, edges).value, s) :: s == {})
  {
    var p := ParentScan(n, edges).value;
    var root := TreeRootSpec(n, edges).value;
    ParentScanSpec(n, edges);
    assert root in Roots(p);
    forall v | 0 <= v < n && v != root
      ensures HasInEdge(edges, v)
    {
      if p[v].None? {
        SingletonMember(Roots(p), v, root);
      }
    }
    forall s: set<nat> | ParentClosed(p, s)
      ensures s == {}
    {
      if s != {} {
        var v :| v in s;
        ClosedNeverRoots(p, s, v, root);
      }
    }
  }

  /** A root found by TreeRootSpec is parentless and every node's parent chain reaches it. */
  lemma RootReachedByAll(n: nat, edges: seq<Edge>)
    requires EdgesIn(n, edges)
    requires TreeRootSpec(n, edges).Success?
    ensures ParentScan(n, edges).Success?
    ensures var p := ParentScan(n, edges).value;
      && TreeRootSpec(n, edges).value in Roots(p)
      && forall v | 0 <= v < n :: ReachesRoot(p, v, TreeRootSpec(n, edges).value)
  {
  }
}
