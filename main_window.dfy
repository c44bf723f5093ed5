/**
 * The main window's algorithms: the stack-free threaded traversal, the leaf count of
 * OnGraphChanged, and the TreeRoot cache through which the window reaches the binary tree
 * built over its graph.
 */
module MainWindow {
  import opened Wrappers
  import opened Trees
  import opened TreeRoot
  import opened BuildTree
  import opened BinaryInfos
  import opened Threading
  import opened Traversal
  import opened ThreadedWalk
  import opened GraphExtensions

  // ---------------------------------------------------------------------------
  // TraverseWithThread(node, order)

  /** The inner loop that follows real left children down from `x`. */
  method DescendLeft(info: seq<BinaryInfo>, ghost t: Tree, x: nat) returns (y: nat)
    requires Spans(info, t) && PointersIn(info) && x < |info|
    ensures y == LeftDescent(t, x)
  {
    FindIn(t, x);
    y := x;
    while info[y].HasLeftChild()
      invariant y in Ids(t) && Find(t, y).Node? && Find(t, y).id == y
      invariant LeftmostId(Find(t, y)) == LeftmostId(Find(t, x))
      decreases Find(t, y)
    {
      RealAt(info, t, y);
      FindChild(t, y);
      y := info[y].leftChild.value;
    }
    RealAt(info, t, y);
  }

  /** The inner loop of the post-order case: down from `x`, left when possible, else right. */
  method DescendPost(info: seq<BinaryInfo>, ghost t: Tree, x: nat) returns (y: nat)
    requires Spans(info, t) && PointersIn(info) && x < |info|
    ensures y == PostDescent(t, x)
  {
    FindIn(t, x);
    y := x;
    while true
      invariant y in Ids(t) && Find(t, y).Node? && Find(t, y).id == y
      invariant FirstPostId(Find(t, y)) == FirstPostId(Find(t, x))
      decreases Find(t, y)
    {
      RealAt(info, t, y);
      FindChild(t, y);
      var b := info[y];
      if b.HasLeftChild() {
        y := b.leftChild.value;
      } else if b.HasRightChild() {
        y := b.rightChild.value;
      } else {
        break;
      }
    }
  }

  /** One turn of the walk's switch: the node after `node`, or a null dereference. */
  method StepFrom(info: seq<BinaryInfo>, ghost t: Tree, order: TraversalOrder, node: nat) returns (next: Option<nat>, fault: bool)
    requires Spans(info, t) && PointersIn(info) && node < |info|
    ensures NextNode(info, t, order, node) == if fault then Fault else if next.Some? then Next(next.value) else Stop
  {
    var b := info[node];
    fault := false;
    match order
    case PreOrder =>
      next := if b.HasLeftChild() then b.leftChild else b.rightChild;
    case InOrder =>
      next := b.rightChild;
      if !b.isRightThread && next.Some? {
        var d := DescendLeft(info, t, next.value);
        next := Some(d);
      }
    case PostOrder =>
      if b.isRightThread {
        next := b.rightChild;
      } else if b.parent.None? {
        next := None;
      } else {
        var parentInfo := info[b.parent.value];
        var isLeftToParent := parentInfo.HasLeftChild() && parentInfo.leftChild == Some(node);
        next := b.parent;
        if isLeftToParent && !parentInfo.isRightThread {
          if parentInfo.rightChild.None? {
            // the descent reads the UserData of a null node
            next, fault := None, true;
          } else {
            var d := DescendPost(info, t, parentInfo.rightChild.value);
            next := Some(d);
          }
        }
      }
  }

  /**
   * The threaded traversal from `node` (the root of `t`): nothing for a null node; otherwise
   * the start node and then one step after another, as long as the walk lasts. The ghost
   * `ws`, `we` is the walk that the records spell from the start node; the method emits
   * exactly it, and reports a fault exactly when the walk ends by dereferencing null.
   */
  method TraverseWithThreadFrom(info: seq<BinaryInfo>, node: Option<nat>, order: TraversalOrder,
    ghost t: Tree, ghost ws: seq<nat>, ghost we: Step) returns (out: seq<nat>, fault: bool)
    requires Spans(info, t) && PointersIn(info) && node == RootId(t)
    requires node.Some? ==> Walks(info, t, order, ws, we) && ws[0] == StartNode(t, order, node.value)
    ensures node.None? ==> out == [] && !fault
    ensures node.Some? ==> out == ws && (fault <==> we == Fault)
  {
    out, fault := [], false;
    if node.None? {
      return;
    }
    var start := node.value;
    if order != PreOrder {
      start := DescendLeft(info, t, start);
    }
    var cur := Some(start);
    ghost var k := 0;
    while cur.Some?
      invariant k <= |ws|
      invariant cur.Some? ==> k < |ws| && cur.value == ws[k] && out == ws[..k]
      invariant cur.None? ==> out == ws && we == Stop
      decreases |ws| - k
    {
      out := out + [cur.value];
      WalkNext(info, t, order, ws, we, k);
      var next, f := StepFrom(info, t, order, cur.value);
      if f {
        assert out == ws[..k + 1] == ws;
        fault := true;
        return;
      }
      if next.None? {
        assert out == ws[..k + 1] == ws;
      }
      cur := next;
      k := k + 1;
    }
  }

  // ---------------------------------------------------------------------------
  // The leaf count of OnGraphChanged

  /** A node with neither a real left nor a real right child. */
  predicate IsLeaf(b: BinaryInfo) {
    !b.HasLeftChild() && !b.HasRightChild()
  }

  /** The leaves among the first `i` nodes. */
  function LeavesBelow(info: seq<BinaryInfo>, i: nat): set<nat>
    requires i <= |info|
  {
    set x | 0 <= x < i && IsLeaf(info[x])
  }

  /** The loop over all nodes that counts those with neither a real left nor a real right child. */
  method CountLeaves(info: seq<BinaryInfo>) returns (count: nat)
    ensures count == |LeavesBelow(info, |info|)|
  {
    count := 0;
    var i := 0;
    while i < |info|
      invariant i <= |info| && count == |LeavesBelow(info, i)|
    {
      if IsLeaf(info[i]) {
        assert LeavesBelow(info, i + 1) == LeavesBelow(info, i) + {i};
        count := count + 1;
      } else {
        assert LeavesBelow(info, i + 1) == LeavesBelow(info, i);
      }
      i := i + 1;
    }
  }

  /** When the child pointers spell a tree over all nodes, the counted nodes are its leaves. */
  lemma LeavesAreLeafIds(info: seq<BinaryInfo>, t: Tree)
    requires Spans(info, t)
    ensures LeavesBelow(info, |info|) == LeafIds(t)
  {
    forall x: nat
      ensures x in LeavesBelow(info, |info|) <==> x in LeafIds(t)
    {
      LeafIdsFind(t, x);
      if x in Ids(t) {
        RealAt(info, t, x);
      }
    }
  }

  // ---------------------------------------------------------------------------
  // The window: the TreeRoot cache and the two public traversals

  /**
   * What the traversal handler emits on freshly built records: the whole order, except that
   * a post-order walk faults exactly when the root has only a left child and that child has
   * a right child, after listing the left subtree.
   */
  ghost predicate FreshOutcome(t: Tree, order: TraversalOrder, out: seq<nat>, fault: bool)
    requires t.Node?
  {
    && (fault <==> order == PostOrder && PostFault(t))
    && (!fault ==> out == Order(t, order))
    && (fault ==> out == Order(t.left, PostOrder))
  }

  /**
   * The part of the main window that reaches the tree: the graph, the `_upToDate` flag, the
   * cached root and the exception of the last failed build. The ghost `tree` is the tree the
   * cached root's records were built for. The left/right decider compares the nodes' current
   * on-screen positions, so every call that may rebuild the tree takes it as a parameter.
   */
  class Window {
    const graph: Graph
    var upToDate: bool
    var treeRoot: Option<nat>
    var buildTreeError: Option<TreeError>
    ghost var tree: Tree

    /** A cached root comes with its records, whose child pointers spell a tree over all nodes. */
    ghost predicate Valid()
      reads this, graph
    {
      && graph.Valid()
      && (upToDate ==>
        && (treeRoot.None? <==> buildTreeError.Some?)
        && (treeRoot.Some? ==> RootId(tree) == treeRoot && Spans(graph.userData, tree) && LeftBiased(tree)))
    }

    /** What a fresh build with `decide` leaves in the cache, with `recs` the records it leaves. */
    ghost predicate BuildOutcome(recs: seq<BinaryInfo>, decide: (nat, nat, nat) -> int)
      reads this, graph
      requires graph.Valid()
    {
      var b := BuildSpec(graph.nodeCount, graph.edges);
      && (b.Success? ==>
        && treeRoot == Some(b.value) && buildTreeError.None? && RootId(tree) == treeRoot
        && ParentScan(graph.nodeCount, graph.edges).Success?
        && recs == Built(graph.nodeCount, graph.edges, decide)
        && FreshTree(recs, tree))
      && (b.Failure? ==> treeRoot.None? && buildTreeError == Some(b.error))
    }

    /**
     * The TreeRoot getter's effect: the cache is up to date; a cache that was up to date is
     * unchanged, otherwise the tree was built again with `decide` and `recs` are the records
     * that left.
     */
    twostate predicate Refreshed(recs: seq<BinaryInfo>, decide: (nat, nat, nat) -> int)
      reads this, graph
    {
      && upToDate && graph.Valid()
      && (old(upToDate) ==>
        && treeRoot == old(treeRoot) && buildTreeError == old(buildTreeError)
        && tree == old(tree) && recs == old(graph.userData))
      && (!old(upToDate) ==>
        && BuildOutcome(recs, decide)
        && (treeRoot.None? ==> recs == old(graph.userData)))
    }

    constructor(g: Graph)
      requires g.Valid()
      ensures Valid() && graph == g && !upToDate
    {
      graph := g;
      upToDate := false;
      treeRoot := None;
      buildTreeError := None;
      tree := Nil;
    }

    /**
     * The TreeRoot getter: the cached root while up to date; otherwise a new build, whose
     * root is cached, or whose exception is stored with a null root.
     */
    method TreeRoot(decide: (nat, nat, nat) -> int) returns (root: Option<nat>)
      requires Valid()
      modifies this, graph
      ensures Valid() && Refreshed(graph.userData, decide) && root == treeRoot
    {
      if upToDate {
        return treeRoot;
      }
      upToDate := true;
      var r, t := graph.BuildBinaryTree(decide);
      if r.Success? {
        treeRoot, buildTreeError, tree := Some(r.value), None, t;
        FreshIsRawAndReal(graph.userData, t, None);
      } else {
        treeRoot, buildTreeError := None, Some(r.error);
      }
      root := treeRoot;
    }

    /**
     * Traverse(order): rethrows the stored exception when there is no tree; otherwise the
     * recursive traversal from the root, which lists every node exactly once.
     */
    method Traverse(order: TraversalOrder, decide: (nat, nat, nat) -> int) returns (r: Result<seq<nat>, TreeError>)
      requires Valid()
      requires upToDate && treeRoot.Some? ==> Raw(graph.userData, treeRoot, tree)
      modifies this, graph
      ensures Valid() && Refreshed(graph.userData, decide)
      ensures treeRoot.None? ==> r == Failure(buildTreeError.value)
      ensures treeRoot.Some? ==> r == Success(Order(tree, order))
      ensures r.Success? ==> NoDup(r.value) && forall x: nat :: x in r.value <==> x < graph.nodeCount
    {
      var root := TreeRoot(decide);
      if root.None? {
        return Failure(buildTreeError.value);
      }
      if !old(upToDate) {
        FreshIsRawAndReal(graph.userData, tree, None);
      }
      var out := Traversal.Traverse(graph.userData, root, order, tree);
      OrderElems(tree, order);
      r := Success(out);
    }

    /**
     * The threaded branch's result, with `recs` the records before threading: a walk over
     * the threaded records that starts where the order starts and ends in a stop or a null
     * dereference; the records are unthreaded again after a stop and stay threaded after a fault.
     */
    ghost predicate ThreadedOutcome(recs: seq<BinaryInfo>, order: TraversalOrder, r: Result<seq<nat>, TreeError>, fault: bool)
      reads this, graph
      requires tree.Node? && IdsBelow(Order(tree, order), |recs|) && WalkEnds(Threadified(recs, tree, order), tree, order)
    {
      var threaded := Threadified(recs, tree, order);
      && r.Success?
      && Walks(threaded, tree, order, r.value, if fault then Fault else Stop)
      && r.value[0] == StartNode(tree, order, tree.id)
      && graph.userData == if fault then threaded else Unthreaded(threaded, Ids(tree))
    }

    /**
     * TraverseWithThread(order) as the traversal handler runs it: the stored exception when
     * there is no tree; otherwise Threadify(order), the threaded walk from the root, and
     * Unthreadify once the walk has ended normally. A walk that dereferences null ends the
     * handler there, leaving the records threaded. `recs` are the records before threading.
     */
    method TraverseWithThread(order: TraversalOrder, decide: (nat, nat, nat) -> int) returns (r: Result<seq<nat>, TreeError>, fault: bool, ghost recs: seq<BinaryInfo>)
      requires Valid()
      requires upToDate && treeRoot.Some? ==>
        IdsBelow(Order(tree, order), graph.nodeCount) && WalkEnds(Threadified(graph.userData, tree, order), tree, order)
      modifies this, graph
      ensures Valid() && Refreshed(recs, decide)
      ensures treeRoot.None? ==> r == Failure(buildTreeError.value) && !fault && graph.userData == recs
      ensures treeRoot.Some? ==>
        && IdsBelow(Order(tree, order), |recs|) && WalkEnds(Threadified(recs, tree, order), tree, order)
        && ThreadedOutcome(recs, order, r, fault)
      ensures treeRoot.Some? && FreshTree(recs, tree) ==> r.Success? && FreshOutcome(tree, order, r.value, fault)
    {
      var root := TreeRoot(decide);
      recs := graph.userData;
      if root.None? {
        return Failure(buildTreeError.value), false, recs;
      }
      if !old(upToDate) {
        var _, _ := FreshWalk(recs, tree, order);
      }
      r, fault := ThreadedRun(root.value, order, recs);
    }

    /**
     * The threaded branch of the traversal handler on an up-to-date cache holding a tree,
     * with `recs` the records before threading.
     */
    method ThreadedRun(root: nat, order: TraversalOrder, ghost recs: seq<BinaryInfo>) returns (r: Result<seq<nat>, TreeError>, fault: bool)
      requires Valid() && upToDate && treeRoot == Some(root) && recs == graph.userData
      requires IdsBelow(Order(tree, order), |recs|) && WalkEnds(Threadified(recs, tree, order), tree, order)
      modifies graph
      ensures Valid()
      ensures ThreadedOutcome(recs, order, r, fault)
      ensures FreshTree(recs, tree) ==> r.Success? && FreshOutcome(tree, order, r.value, fault)
    {
      var out;
      out, fault := WalkThreaded(root, order);
      if !fault {
        ghost var threaded := graph.userData;
        graph.Unthreadify(root, tree);
        UnthreadedReal(threaded, tree, Ids(tree));
      }
      r := Success(out);
      if FreshTree(recs, tree) {
        FreshRun(recs, tree, order, out, fault);
      }
    }

    /** Threadify(order) from the root, then the threaded walk over the threaded records. */
    method WalkThreaded(root: nat, order: TraversalOrder) returns (out: seq<nat>, fault: bool)
      requires Valid() && upToDate && treeRoot == Some(root)
      requires IdsBelow(Order(tree, order), graph.nodeCount) && WalkEnds(Threadified(graph.userData, tree, order), tree, order)
      modifies graph
      ensures Valid() && graph.userData == Threadified(old(graph.userData), tree, order)
      ensures Walks(graph.userData, tree, order, out, if fault then Fault else Stop)
      ensures out[0] == StartNode(tree, order, tree.id)
    {
      graph.Threadify(root, order, tree);
      ghost var ws, we :| Walks(graph.userData, tree, order, ws, we) && ws[0] == StartNode(tree, order, tree.id);
      out, fault := TraverseWithThreadFrom(graph.userData, Some(root), order, tree, ws, we);
    }

    /** What ThreadedRun emits on freshly built records. */
    static lemma FreshRun(recs: seq<BinaryInfo>, t: Tree, order: TraversalOrder, out: seq<nat>, fault: bool)
      requires FreshTree(recs, t) && IdsBelow(Order(t, order), |recs|)
      requires WalkEnds(Threadified(recs, t, order), t, order)
      requires Walks(Threadified(recs, t, order), t, order, out, if fault then Fault else Stop)
      requires out[0] == StartNode(t, order, t.id)
      ensures fault <==> order == PostOrder && PostFault(t)
      ensures !fault ==> out == Order(t, order)
      ensures fault ==> out == Order(t.left, PostOrder)
    {
      ThreadedWalkIsTraversal(recs, t, order, out, if fault then Fault else Stop);
    }

    /**
     * OnGraphChanged: the cache goes stale; with leaf highlighting on, the tree is built again
     * and the leaves are counted, or the build's exception is reported.
     */
    method OnGraphChanged(highlightLeaves: bool, decide: (nat, nat, nat) -> int) returns (r: Option<Result<nat, TreeError>>)
      requires Valid()
      modifies this, graph
      ensures Valid()
      ensures !highlightLeaves ==> r.None? && !upToDate && graph.userData == old(graph.userData)
      ensures highlightLeaves ==> upToDate && BuildOutcome(graph.userData, decide) && r.Some?
      ensures highlightLeaves && treeRoot.None? ==> r == Some(Failure(buildTreeError.value))
      ensures highlightLeaves && treeRoot.Some? ==> r == Some(Success(|LeafIds(tree)|))
    {
      upToDate := false;
      if !highlightLeaves {
        return None;
      }
      var root := TreeRoot(decide);
      if root.None? {
        return Some(Failure(buildTreeError.value));
      }
      var count := CountLeaves(graph.userData);
      LeavesAreLeafIds(graph.userData, tree);
      r := Some(Success(count));
    }
  }
}
