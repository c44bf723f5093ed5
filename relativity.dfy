/**
 * The relationship network's relativity labels. Every node's UserData becomes an int label
 * relative to a chosen target: -2 for the target, -1 for its direct neighbours, and for
 * every other node the number of direct neighbours it is adjacent to. Self loops are kept
 * apart from a node's in- and out-edges by the graph library, so they never count.
 */
module RelationshipNetwork {
  import opened Wrappers
  import opened TreeRoot

  /** Sources of the edges into `v`, self loops excluded: the library's InEdges. */
  function InSources(edges: seq<Edge>, v: nat): set<nat> {
    set i | 0 <= i < |edges| && edges[i].1 == v && edges[i].0 != v :: edges[i].0
  }

  /** Targets of the edges out of `v`, self loops excluded: the library's OutEdges. */
  function OutTargets(edges: seq<Edge>, v: nat): set<nat> {
    set i | 0 <= i < |edges| && edges[i].0 == v && edges[i].1 != v :: edges[i].1
  }

  /** The nodes adjacent to `v` in either direction. */
  function Neighbours(edges: seq<Edge>, v: nat): set<nat> {
    InSources(edges, v) + OutTargets(edges, v)
  }

  /** The direct nodes of `target` that `x` is adjacent to. */
  function Relatives(edges: seq<Edge>, target: nat, x: nat): set<nat> {
    set d | d in Neighbours(edges, target) && x in Neighbours(edges, d)
  }

  /** The label CalculateRelativity(target) leaves on node `x`. */
  function LabelOf(edges: seq<Edge>, target: nat, x: nat): int {
    if x == target then -2
    else if x in Neighbours(edges, target) then -1
    else |Relatives(edges, target, x)|
  }

  /** The labels CalculateRelativity(target) leaves, node by node. */
  function Relativity(n: nat, edges: seq<Edge>, target: nat): (r: seq<int>)
    ensures |r| == n
  {
    seq(n, x requires 0 <= x < n => LabelOf(edges, target, x))
  }

  // ---------------------------------------------------------------------------
  // What the labels mean.

  /** Adjacency is symmetric: an edge into one end is an edge out of the other. */
  lemma NeighboursSymmetric(edges: seq<Edge>, a: nat, b: nat)
    ensures a in Neighbours(edges, b) <==> b in Neighbours(edges, a)
  {
    if a in InSources(edges, b) {
      var i :| 0 <= i < |edges| && edges[i].1 == b && edges[i].0 != b && edges[i].0 == a;
      assert b in OutTargets(edges, a);
    }
    if a in OutTargets(edges, b) {
      var i :| 0 <= i < |edges| && edges[i].0 == b && edges[i].1 != b && edges[i].1 == a;
      assert b in InSources(edges, a);
    }
    if b in InSources(edges, a) {
      var i :| 0 <= i < |edges| && edges[i].1 == a && edges[i].0 != a && edges[i].0 == b;
      assert a in OutTargets(edges, b);
    }
    if b in OutTargets(edges, a) {
      var i :| 0 <= i < |edges| && edges[i].0 == a && edges[i].1 != a && edges[i].1 == b;
      assert a in InSources(edges, b);
    }
  }

  /** No node is its own neighbour, so the target is never one of its direct nodes. */
  lemma NotOwnNeighbour(edges: seq<Edge>, v: nat)
    ensures v !in Neighbours(edges, v)
  {
  }

  /** Every neighbour is a node when every edge joins nodes. */
  lemma NeighboursIn(n: nat, edges: seq<Edge>, v: nat)
    requires EdgesIn(n, edges)
    ensures forall x | x in Neighbours(edges, v) :: x < n
  {
  }

  /**
   * The label of a node that is neither the target nor direct counts the direct nodes among
   * its own neighbours, each once however many edges join them.
   */
  lemma RelativityCountsDirectNeighbours(n: nat, edges: seq<Edge>, target: nat, x: nat)
    requires x < n && x != target && x !in Neighbours(edges, target)
    ensures Relativity(n, edges, target)[x] == |Neighbours(edges, target) * Neighbours(edges, x)|
  {
    forall d
      ensures d in Relatives(edges, target, x) <==> d in Neighbours(edges, target) * Neighbours(edges, x)
    {
      NeighboursSymmetric(edges, x, d);
    }
    assert Relatives(edges, target, x) == Neighbours(edges, target) * Neighbours(edges, x);
  }

  /**
   * The label domain: -2 exactly for the target, -1 exactly for its direct nodes, and
   * otherwise a count between 0 and the number of direct nodes.
   */
  lemma LabelsInDomain(n: nat, edges: seq<Edge>, target: nat, x: nat)
    requires x < n
    ensures var r := Relativity(n, edges, target)[x];
      && (r == -2 <==> x == target)
      && (r == -1 <==> x in Neighbours(edges, target))
      && (r >= 0 ==> r <= |Neighbours(edges, target)|)
      && r >= -2
  {
    NotOwnNeighbour(edges, target);
    if x != target && x !in Neighbours(edges, target) {
      assert Relatives(edges, target, x) <= Neighbours(edges, target);
      SubsetCard(Relatives(edges, target, x), Neighbours(edges, target));
    }
  }

  lemma SubsetCard(a: set<nat>, b: set<nat>)
    requires a <= b
    ensures |a| <= |b|
  {
    assert b == a + (b - a);
  }

  /** The colours HighlightRelationship paints. */
  datatype Colour = Black | Cyan | Gray | Yellow

  /** The colour switch of HighlightRelationship; None is its throwing arm. */
  function HighlightColour(tag: int): (c: Option<Colour>)
    ensures c.None? <==> tag < -2
    ensures c == Some(Black) <==> tag == -2
    ensures c == Some(Cyan) <==> tag == -1
    ensures c == Some(Gray) <==> tag == 0
    ensures c == Some(Yellow) <==> tag > 0
  {
    if tag == -2 then Some(Black)
    else if tag == -1 then Some(Cyan)
    else if tag == 0 then Some(Gray)
    else if tag > 0 then Some(Yellow)
    else None
  }

  /** After CalculateRelativity the colour switch never reaches its throwing arm. */
  lemma HighlightNeverThrows(n: nat, edges: seq<Edge>, target: nat)
    ensures forall x | 0 <= x < n :: HighlightColour(Relativity(n, edges, target)[x]).Some?
  {
    forall x | 0 <= x < n
      ensures HighlightColour(Relativity(n, edges, target)[x]).Some?
    {
      LabelsInDomain(n, edges, target, x);
    }
  }

  // ---------------------------------------------------------------------------
  // CalculateRelativity, step by step.

  /** The sources of the edges into `v` among the first `j` edges. */
  function InSourcesBelow(edges: seq<Edge>, v: nat, j: nat): set<nat>
    requires j <= |edges|
  {
    set i | 0 <= i < j && edges[i].1 == v && edges[i].0 != v :: edges[i].0
  }

  /** The targets of the edges out of `v` among the first `j` edges. */
  function OutTargetsBelow(edges: seq<Edge>, v: nat, j: nat): set<nat>
    requires j <= |edges|
  {
    set i | 0 <= i < j && edges[i].0 == v && edges[i].1 != v :: edges[i].1
  }

  /** The direct nodes among `processed` that `x` is adjacent to. */
  function CountedFrom(edges: seq<Edge>, processed: set<nat>, x: nat): set<nat> {
    set d | d in processed && x in Neighbours(edges, d)
  }

  lemma CountedStep(edges: seq<Edge>, processed: set<nat>, d: nat, x: nat)
    requires d !in processed
    ensures |CountedFrom(edges, processed + {d}, x)| ==
      |CountedFrom(edges, processed, x)| + if x in Neighbours(edges, d) then 1 else 0
  {
    if x in Neighbours(edges, d) {
      assert CountedFrom(edges, processed + {d}, x) == CountedFrom(edges, processed, x) + {d};
    } else {
      assert CountedFrom(edges, processed + {d}, x) == CountedFrom(edges, processed, x);
    }
  }

  /** The network's nodes and edges, and every node's UserData label. */
  class RelationshipGraph {
    const nodeCount: nat
    const edges: seq<Edge>
    var labels: seq<int>

    ghost predicate Valid()
      reads this
    {
      EdgesIn(nodeCount, edges) && |labels| == nodeCount
    }

    constructor(n: nat, es: seq<Edge>, initial: seq<int>)
      requires EdgesIn(n, es) && |initial| == n
      ensures Valid() && nodeCount == n && edges == es && labels == initial
    {
      nodeCount, edges, labels := n, es, initial;
    }

    /**
     * CalculateRelativity(target): every label reset to 0, the target labelled -2, the
     * direct nodes labelled -1 and collected once each, then for each direct node every
     * neighbour whose label is not negative counted up by one.
     */
    method CalculateRelativity(target: nat)
      requires Valid() && target < nodeCount
      modifies this
      ensures Valid()
      ensures labels == Relativity(nodeCount, edges, target)
    {
      var i := 0;
      while i < nodeCount
        invariant Valid() && i <= nodeCount
        invariant forall x | 0 <= x < i :: labels[x] == 0
      {
        labels := labels[i := 0];
        i := i + 1;
      }
      labels := labels[target := -2];
      var directNodes := MarkDirect(target);
      assert forall x :: CountedFrom(edges, {}, x) == {};
      CountRelatives(target, directNodes);
      forall x | 0 <= x < nodeCount
        ensures labels[x] == Relativity(nodeCount, edges, target)[x]
      {
        assert CountedFrom(edges, directNodes, x) == Relatives(edges, target, x);
      }
    }

    /** The two loops over the target's in- and out-edges: each direct node labelled -1 and collected. */
    method MarkDirect(target: nat) returns (directNodes: set<nat>)
      requires Valid() && target < nodeCount
      requires forall x | 0 <= x < nodeCount :: labels[x] == if x == target then -2 else 0
      modifies this
      ensures Valid() && directNodes == Neighbours(edges, target)
      ensures forall x | 0 <= x < nodeCount ::
        labels[x] == if x in directNodes then -1 else if x == target then -2 else 0
    {
      directNodes := {};
      var j := 0;
      while j < |edges|
        invariant Valid() && j <= |edges|
        invariant directNodes == InSourcesBelow(edges, target, j)
        invariant forall x | 0 <= x < nodeCount ::
          labels[x] == if x in directNodes then -1 else if x == target then -2 else 0
      {
        var e := edges[j];
        if e.1 == target && e.0 != target {
          labels := labels[e.0 := -1];
          directNodes := directNodes + {e.0};
        }
        assert InSourcesBelow(edges, target, j + 1) ==
          InSourcesBelow(edges, target, j) + (if e.1 == target && e.0 != target then {e.0} else {});
        j := j + 1;
      }
      assert InSourcesBelow(edges, target, j) == InSources(edges, target);
      ghost var ins := directNodes;
      j := 0;
      while j < |edges|
        invariant Valid() && j <= |edges|
        invariant directNodes == ins + OutTargetsBelow(edges, target, j)
        invariant forall x | 0 <= x < nodeCount ::
          labels[x] == if x in directNodes then -1 else if x == target then -2 else 0
      {
        var e := edges[j];
        if e.0 == target && e.1 != target {
          labels := labels[e.1 := -1];
          directNodes := directNodes + {e.1};
        }
        assert OutTargetsBelow(edges, target, j + 1) ==
          OutTargetsBelow(edges, target, j) + (if e.0 == target && e.1 != target then {e.1} else {});
        j := j + 1;
      }
      assert OutTargetsBelow(edges, target, j) == OutTargets(edges, target);
    }

    /** The labels while the final loop runs, with `processed` the direct nodes done so far. */
    ghost predicate CountedSoFar(target: nat, directNodes: set<nat>, processed: set<nat>)
      reads this
      requires Valid()
    {
      forall x | 0 <= x < nodeCount ::
        labels[x] == if x in directNodes then -1 else if x == target then -2
          else |CountedFrom(edges, processed, x)|
    }

    /**
     * The final loop: for each direct node, the set of its neighbours whose label is not
     * negative, each counted up by one.
     */
    method CountRelatives(target: nat, directNodes: set<nat>)
      requires Valid() && target < nodeCount && directNodes == Neighbours(edges, target)
      requires CountedSoFar(target, directNodes, {})
      modifies this
      ensures Valid() && CountedSoFar(target, directNodes, directNodes)
    {
      var remaining := directNodes;
      while remaining != {}
        invariant Valid() && remaining <= directNodes
        invariant CountedSoFar(target, directNodes, directNodes - remaining)
        decreases |remaining|
      {
        var d :| d in remaining;
        CountNeighbours(target, directNodes, directNodes - remaining, d);
        assert directNodes - (remaining - {d}) == (directNodes - remaining) + {d};
        remaining := remaining - {d};
      }
      assert directNodes - remaining == directNodes;
    }

    /** One turn of the final loop: the neighbours of direct node `d` whose label is not negative. */
    method CountNeighbours(target: nat, directNodes: set<nat>, ghost processed: set<nat>, d: nat)
      requires Valid() && target < nodeCount && directNodes == Neighbours(edges, target)
      requires d in directNodes && d !in processed
      requires CountedSoFar(target, directNodes, processed)
      modifies this
      ensures Valid() && CountedSoFar(target, directNodes, processed + {d})
    {
      NotOwnNeighbour(edges, target);
      NeighboursIn(nodeCount, edges, d);
      var nodes := set x | x in Neighbours(edges, d) && x < |labels| && labels[x] >= 0;
      IncrementAll(nodes);
      forall x | 0 <= x < nodeCount && x !in directNodes && x != target
        ensures labels[x] == |CountedFrom(edges, processed + {d}, x)|
      {
        CountedStep(edges, processed, d, x);
      }
    }

    /** The inner loop: each node of `nodes` counted up by one. */
    method IncrementAll(nodes: set<nat>)
      requires Valid() && forall x | x in nodes :: x < nodeCount
      modifies this
      ensures Valid()
      ensures forall x | 0 <= x < nodeCount :: labels[x] == old(labels[x]) + if x in nodes then 1 else 0
    {
      var pending := nodes;
      while pending != {}
        invariant Valid() && pending <= nodes
        invariant forall x | 0 <= x < nodeCount ::
          labels[x] == old(labels[x]) + if x in nodes - pending then 1 else 0
        decreases |pending|
      {
        var nd :| nd in pending;
        labels := labels[nd := labels[nd] + 1];
        pending := pending - {nd};
      }
    }
  }
}
