/**
 * The stack-free walk of TraverseWithThread, one step at a time: where the walk goes after
 * emitting a node, for each order, on any records whose child pointers spell a tree. On a
 * freshly built tree threaded for the same order, the walk lists exactly the recursive
 * order -- except that the post-order walk dereferences null when the root has only a left
 * child and that child has a right child.
 */
module ThreadedWalk {
  import opened Wrappers
  import opened Trees
  import opened BinaryInfos
  import opened Threading
  import opened Traversal

  /** Every parent, left and right pointer names a node. */
  predicate PointersIn(info: seq<BinaryInfo>) {
    forall x | 0 <= x < |info| ::
      && (info[x].parent.Some? ==> info[x].parent.value < |info|)
      && (info[x].leftChild.Some? ==> info[x].leftChild.value < |info|)
      && (info[x].rightChild.Some? ==> info[x].rightChild.value < |info|)
  }

  /** The child pointers spell `t`, which holds every node exactly once. */
  ghost predicate Spans(info: seq<BinaryInfo>, t: Tree) {
    && Real(info, t) && Distinct(t)
    && forall x: nat :: x in Ids(t) <==> x < |info|
  }

  /** A freshly built tree: every node's record as BuildBinaryTree leaves it. */
  ghost predicate FreshTree(info: seq<BinaryInfo>, t: Tree) {
    && t.Node? && Fresh(info, t, None) && Distinct(t) && LeftBiased(t)
    && forall x: nat :: x in Ids(t) <==> x < |info|
  }

  /** What the walk does after emitting a node: move to a node, stop, or dereference null. */
  datatype Step = Next(node: nat) | Stop | Fault

  /** The inner loop that follows left children down from `x`. */
  ghost function LeftDescent(t: Tree, x: nat): nat
    requires Distinct(t) && x in Ids(t)
  {
    FindIn(t, x);
    LeftmostId(Find(t, x))
  }

  /** The inner loop of the post-order case: down from `x`, left when possible, else right. */
  ghost function PostDescent(t: Tree, x: nat): nat
    requires Distinct(t) && x in Ids(t)
  {
    FindIn(t, x);
    FirstPostId(Find(t, x))
  }

  /**
   * The step after emitting `x`.
   * Pre-order: the left child if it is real, else the right pointer, thread or not.
   * In-order: a right thread directly; a real right child, then down its left children.
   * Post-order: a right thread directly; stop at a parentless node; from a left child whose
   * parent is not right-threaded, the parent's right pointer and down from there (null is a
   * fault); otherwise the parent.
   */
  ghost function NextNode(info: seq<BinaryInfo>, t: Tree, order: TraversalOrder, x: nat): Step
    requires Spans(info, t) && PointersIn(info) && x < |info|
  {
    var b := info[x];
    match order
    case PreOrder =>
      if b.HasLeftChild() then Next(b.leftChild.value)
      else if b.rightChild.Some? then Next(b.rightChild.value)
      else Stop
    case InOrder =>
      if b.rightChild.None? then Stop
      else if b.isRightThread then Next(b.rightChild.value)
      else Next(LeftDescent(t, b.rightChild.value))
    case PostOrder =>
      if b.isRightThread then (if b.rightChild.Some? then Next(b.rightChild.value) else Stop)
      else if b.parent.None? then Stop
      else
        var p := b.parent.value;
        var pb := info[p];
        if pb.HasLeftChild() && pb.leftChild == Some(x) && !pb.isRightThread then
          if pb.rightChild.None? then Fault else Next(PostDescent(t, pb.rightChild.value))
        else Next(p)
  }

  /** The first node emitted from `root`: itself in pre-order, else the end of its left children. */
  ghost function StartNode(t: Tree, order: TraversalOrder, root: nat): nat
    requires Distinct(t) && root in Ids(t)
  {
    if order == PreOrder then root else LeftDescent(t, root)
  }

  /** `s` is what the walk emits, one step after another, and `end` is how it ends. */
  ghost predicate Walks(info: seq<BinaryInfo>, t: Tree, order: TraversalOrder, s: seq<nat>, end: Step)
    requires Spans(info, t) && PointersIn(info)
  {
    && |s| > 0 && !end.Next?
    && (forall i | 0 <= i < |s| :: s[i] < |info|)
    && (forall i | 0 <= i < |s| - 1 :: NextNode(info, t, order, s[i]) == Next(s[i + 1]))
    && NextNode(info, t, order, s[|s| - 1]) == end
  }

  /** The walk from the start node ends: it stops or faults after finitely many steps. */
  ghost predicate WalkEnds(info: seq<BinaryInfo>, t: Tree, order: TraversalOrder) {
    && t.Node? && Spans(info, t) && PointersIn(info)
    && exists s, e :: Walks(info, t, order, s, e) && s[0] == StartNode(t, order, t.id)
  }

  /** The post-order walk faults: the root has only a left child, and that child has a right child. */
  predicate PostFault(t: Tree) {
    t.Node? && t.left.Node? && t.right.Nil? && t.left.right.Node?
  }

  /** The step from position `i` of a walk: to the next position, or the walk's end. */
  lemma WalkNext(info: seq<BinaryInfo>, t: Tree, order: TraversalOrder, s: seq<nat>, e: Step, i: nat)
    requires Spans(info, t) && PointersIn(info)
    requires Walks(info, t, order, s, e) && i < |s|
    ensures NextNode(info, t, order, s[i]) == if i + 1 < |s| then Next(s[i + 1]) else e
  {
  }

  /** Two walks from the same node agree position by position, and end at the same position. */
  lemma {:induction false} WalksAgree(info: seq<BinaryInfo>, t: Tree, order: TraversalOrder, s1: seq<nat>, e1: Step, s2: seq<nat>, e2: Step, i: nat)
    requires Spans(info, t) && PointersIn(info)
    requires Walks(info, t, order, s1, e1) && Walks(info, t, order, s2, e2) && s1[0] == s2[0]
    requires i < |s1| && i < |s2|
    ensures s1[i] == s2[i]
    ensures i + 1 == |s1| <==> i + 1 == |s2|
  {
    if i > 0 {
      WalksAgree(info, t, order, s1, e1, s2, e2, i - 1);
      WalkNext(info, t, order, s1, e1, i - 1);
      WalkNext(info, t, order, s2, e2, i - 1);
    }
    WalkNext(info, t, order, s1, e1, i);
    WalkNext(info, t, order, s2, e2, i);
  }

  /** The walk is deterministic: two walks from the same node are the same walk. */
  lemma WalksUnique(info: seq<BinaryInfo>, t: Tree, order: TraversalOrder, s1: seq<nat>, e1: Step, s2: seq<nat>, e2: Step)
    requires Spans(info, t) && PointersIn(info)
    requires Walks(info, t, order, s1, e1) && Walks(info, t, order, s2, e2) && s1[0] == s2[0]
    ensures s1 == s2 && e1 == e2
  {
    var m := if |s1| < |s2| then |s1| else |s2|;
    WalksAgree(info, t, order, s1, e1, s2, e2, m - 1);
    forall i | 0 <= i < |s1|
      ensures s1[i] == s2[i]
    {
      WalksAgree(info, t, order, s1, e1, s2, e2, i);
    }
    WalkNext(info, t, order, s1, e1, m - 1);
    WalkNext(info, t, order, s2, e2, m - 1);
  }

  // ---------------------------------------------------------------------------
  // The records of a freshly built tree threaded for an order.

  /** Pointwise child pointers, node by node, give Real for the whole tree. */
  lemma {:induction false} RealFromNodes(info: seq<BinaryInfo>, t: Tree)
    requires Distinct(t)
    requires forall x | x in Ids(t) ::
      && x < |info| && Find(t, x).Node?
      && info[x].RealLeft() == RootId(Find(t, x).left)
      && info[x].RealRight() == RootId(Find(t, x).right)
    ensures Real(info, t)
  {
    if t.Node? {
      assert Find(t, t.id) == t;
      forall x | x in Ids(t.left)
        ensures Find(t.left, x) == Find(t, x)
      {
        FindLeft(t, x);
      }
      forall x | x in Ids(t.right)
        ensures Find(t.right, x) == Find(t, x)
      {
        FindRight(t, x);
      }
      RealFromNodes(info, t.left);
      RealFromNodes(info, t.right);
    }
  }

  /** The threaded record of node `x`, through its position in the order. */
  lemma ThreadedAt(info0: seq<BinaryInfo>, t: Tree, order: TraversalOrder, x: nat) returns (k: nat)
    requires FreshTree(info0, t) && x in Ids(t)
    ensures IdsBelow(Order(t, order), |info0|)
    ensures k < |Order(t, order)| && Order(t, order)[k] == x
    ensures Threadified(info0, t, order)[x] == ThreadedNode(t, order, k)
  {
    FreshThreaded(info0, t, order);
    k := PositionOf(t, order, x);
  }

  /** Threading keeps the child pointers of a freshly built tree and points every thread at a node. */
  lemma ThreadedSpans(info0: seq<BinaryInfo>, t: Tree, order: TraversalOrder)
    requires FreshTree(info0, t)
    ensures IdsBelow(Order(t, order), |info0|)
    ensures Spans(Threadified(info0, t, order), t) && PointersIn(Threadified(info0, t, order))
  {
    FreshIsRawAndReal(info0, t, None);
    OrderBelow(info0, t, order);
    var info := Threadified(info0, t, order);
    forall x | x in Ids(t)
      ensures x < |info| && Find(t, x).Node?
      ensures info[x].RealLeft() == RootId(Find(t, x).left)
      ensures info[x].RealRight() == RootId(Find(t, x).right)
    {
      ThreadedNodeReal(info0, t, order, x);
    }
    RealFromNodes(info, t);
    forall x | 0 <= x < |info|
      ensures info[x].parent.Some? ==> info[x].parent.value < |info|
      ensures info[x].leftChild.Some? ==> info[x].leftChild.value < |info|
      ensures info[x].rightChild.Some? ==> info[x].rightChild.value < |info|
    {
      ThreadedNodePointers(info0, t, order, x);
    }
  }

  /** The threaded record of a node keeps its real children. */
  lemma ThreadedNodeReal(info0: seq<BinaryInfo>, t: Tree, order: TraversalOrder, x: nat)
    requires FreshTree(info0, t) && x in Ids(t)
    ensures IdsBelow(Order(t, order), |info0|)
    ensures x < |info0| && Find(t, x).Node?
    ensures Threadified(info0, t, order)[x].RealLeft() == RootId(Find(t, x).left)
    ensures Threadified(info0, t, order)[x].RealRight() == RootId(Find(t, x).right)
  {
    var k := ThreadedAt(info0, t, order, x);
    FindIn(t, x);
  }

  /** Every pointer of a threaded record names a node. */
  lemma ThreadedNodePointers(info0: seq<BinaryInfo>, t: Tree, order: TraversalOrder, x: nat)
    requires FreshTree(info0, t) && x < |info0|
    ensures IdsBelow(Order(t, order), |info0|)
    ensures var b := Threadified(info0, t, order)[x];
      && (b.parent.Some? ==> b.parent.value < |info0|)
      && (b.leftChild.Some? ==> b.leftChild.value < |info0|)
      && (b.rightChild.Some? ==> b.rightChild.value < |info0|)
  {
    assert x in Ids(t);
    var k := ThreadedAt(info0, t, order, x);
    ThreadedNodeIn(t, order, k);
    var b := ThreadedNode(t, order, k);
    assert b.parent.Some? ==> b.parent.value in Ids(t);
    assert b.leftChild.Some? ==> b.leftChild.value in Ids(t);
    assert b.rightChild.Some? ==> b.rightChild.value in Ids(t);
  }

  /** Every pointer of the threaded record at position `k` names a node of the tree. */
  lemma ThreadedNodeIn(t: Tree, order: TraversalOrder, k: nat)
    requires Distinct(t) && k < |Order(t, order)|
    ensures var b := ThreadedNode(t, order, k);
      && (b.parent.Some? ==> b.parent.value in Ids(t))
      && (b.leftChild.Some? ==> b.leftChild.value in Ids(t))
      && (b.rightChild.Some? ==> b.rightChild.value in Ids(t))
  {
    var s := Order(t, order);
    OrderAt(t, order, k);
    ParentOfIn(t, s[k]);
    ThreadedLeftIn(t, order, k);
    ThreadedRightIn(t, order, k);
  }

  lemma ThreadedLeftIn(t: Tree, order: TraversalOrder, k: nat)
    requires Distinct(t) && k < |Order(t, order)|
    ensures var b := ThreadedNode(t, order, k); b.leftChild.Some? ==> b.leftChild.value in Ids(t)
  {
    var s := Order(t, order);
    OrderAt(t, order, k);
    FindChild(t, s[k]);
    if !Find(t, s[k]).left.Node? && k > 0 {
      OrderAt(t, order, k - 1);
    }
  }

  lemma ThreadedRightIn(t: Tree, order: TraversalOrder, k: nat)
    requires Distinct(t) && k < |Order(t, order)|
    ensures var b := ThreadedNode(t, order, k); b.rightChild.Some? ==> b.rightChild.value in Ids(t)
  {
    var s := Order(t, order);
    OrderAt(t, order, k);
    FindChild(t, s[k]);
    if !Find(t, s[k]).right.Node? && k + 1 < |s| {
      OrderAt(t, order, k + 1);
    }
  }

  /** Pre-order, one step: the walk moves from position `k` to position `k + 1`. */
  lemma PreStep(info0: seq<BinaryInfo>, t: Tree, k: nat)
    requires FreshTree(info0, t) && k < |Order(t, PreOrder)|
    ensures IdsBelow(Order(t, PreOrder), |info0|)
    ensures Spans(Threadified(info0, t, PreOrder), t) && PointersIn(Threadified(info0, t, PreOrder))
    ensures var s := Order(t, PreOrder);
      NextNode(Threadified(info0, t, PreOrder), t, PreOrder, s[k]) == if k + 1 < |s| then Next(s[k + 1]) else Stop
  {
    ThreadedSpans(info0, t, PreOrder);
    FreshThreaded(info0, t, PreOrder);
    var s := Order(t, PreOrder);
    OrderAt(t, PreOrder, k);
    FindIn(t, s[k]);
    if k + 1 < |s| {
      PreSucc(t, k);
    } else {
      LastHasNoRight(t, PreOrder);
    }
  }

  /** In-order, one step: the walk moves from position `k` to position `k + 1`. */
  lemma InStep(info0: seq<BinaryInfo>, t: Tree, k: nat)
    requires FreshTree(info0, t) && k < |Order(t, InOrder)|
    ensures IdsBelow(Order(t, InOrder), |info0|)
    ensures Spans(Threadified(info0, t, InOrder), t) && PointersIn(Threadified(info0, t, InOrder))
    ensures var s := Order(t, InOrder);
      NextNode(Threadified(info0, t, InOrder), t, InOrder, s[k]) == if k + 1 < |s| then Next(s[k + 1]) else Stop
  {
    ThreadedSpans(info0, t, InOrder);
    FreshThreaded(info0, t, InOrder);
    var s := Order(t, InOrder);
    OrderAt(t, InOrder, k);
    FindIn(t, s[k]);
    FindChild(t, s[k]);
    if k + 1 < |s| {
      InSucc(t, k);
    } else {
      LastHasNoRight(t, InOrder);
    }
  }

  /** The post-order step from the last node, the root: it has no parent, so the walk stops. */
  lemma PostLastStep(info0: seq<BinaryInfo>, t: Tree)
    requires FreshTree(info0, t)
    ensures IdsBelow(Order(t, PostOrder), |info0|)
    ensures Spans(Threadified(info0, t, PostOrder), t) && PointersIn(Threadified(info0, t, PostOrder))
    ensures var s := Order(t, PostOrder);
      |s| > 0 && s[|s| - 1] == t.id && NextNode(Threadified(info0, t, PostOrder), t, PostOrder, t.id) == Stop
  {
    ThreadedSpans(info0, t, PostOrder);
    FreshThreaded(info0, t, PostOrder);
    var s := Order(t, PostOrder);
    assert s[|s| - 1] == t.id;
    ParentOfIn(t, t.id);
  }

  /**
   * Post-order, one step from a position `k` before the last: to position `k + 1`, except
   * for the left child of a root without a right child, when that left child has a right
   * child: there the walk reads the root's null right pointer.
   */
  lemma PostStep(info0: seq<BinaryInfo>, t: Tree, k: nat)
    requires FreshTree(info0, t) && k + 1 < |Order(t, PostOrder)|
    ensures IdsBelow(Order(t, PostOrder), |info0|)
    ensures Spans(Threadified(info0, t, PostOrder), t) && PointersIn(Threadified(info0, t, PostOrder))
    ensures var s := Order(t, PostOrder);
      NextNode(Threadified(info0, t, PostOrder), t, PostOrder, s[k]) ==
        if PostFault(t) && s[k] == t.left.id then Fault else Next(s[k + 1])
  {
    ThreadedSpans(info0, t, PostOrder);
    FreshThreaded(info0, t, PostOrder);
    var info := Threadified(info0, t, PostOrder);
    var s := Order(t, PostOrder);
    var x := s[k];
    OrderAt(t, PostOrder, k);
    OrderNoDup(t, PostOrder);
    FindIn(t, x);
    var sub := Find(t, x);
    assert s[|s| - 1] == t.id;
    assert x != t.id;
    if sub.right.Node? {
      ParentOfIn(t, x);
      var p := ParentOf(t, x).value;
      var j := ThreadedAt(info0, t, PostOrder, p);
      PostSucc(t, k, p);
      FindChild(t, p);
      PostParentStep(t, s, x, p, j, info[p]);
    }
  }

  /** The parent half of PostStep, on the parent's threaded record `pb` at position `j`. */
  lemma PostParentStep(t: Tree, s: seq<nat>, x: nat, p: nat, j: nat, pb: BinaryInfo)
    requires Distinct(t) && LeftBiased(t) && t.Node? && s == Order(t, PostOrder)
    requires x in Ids(t) && x != t.id && Find(t, x).Node? && Find(t, x).right.Node?
    requires j < |s| && s[j] == p && NoDup(s) && s[|s| - 1] == t.id
    requires pb == ThreadedNode(t, PostOrder, j) && Find(t, p).Node?
    requires RootId(Find(t, p).left) == Some(x) || RootId(Find(t, p).right) == Some(x)
    requires Find(t, p).right.Node? ==> Find(t, Find(t, p).right.id) == Find(t, p).right
    ensures var isLeft := pb.HasLeftChild() && pb.leftChild == Some(x) && !pb.isRightThread;
      && (isLeft <==> RootId(Find(t, p).left) == Some(x) && (Find(t, p).right.Node? || p == t.id))
      && (isLeft && Find(t, p).right.Node? ==> pb.rightChild == Some(Find(t, p).right.id))
      && (isLeft && Find(t, p).right.Nil? ==> pb.rightChild.None? && p == t.id)
  {
    if Find(t, p).right.Nil? && p != t.id {
      assert j + 1 < |s|;
    }
  }

  // ---------------------------------------------------------------------------
  // Whole walks on a freshly built tree threaded for the same order.

  /** The first node of each order is where the walk starts: the root, or the end of its left children. */
  lemma StartIsFirst(t: Tree, order: TraversalOrder)
    requires t.Node? && Distinct(t) && LeftBiased(t)
    ensures |Order(t, order)| > 0 && Order(t, order)[0] == StartNode(t, order, t.id)
  {
    OrderParts(t, order);
    assert Find(t, t.id) == t;
    if order == InOrder {
      InFirst(t);
    } else if order == PostOrder {
      PostFirst(t);
      LeftBiasedPostFirst(t);
    }
  }

  /** Pre-order: the walk lists the whole order and stops. */
  lemma PreWalk(info0: seq<BinaryInfo>, t: Tree)
    requires FreshTree(info0, t)
    ensures IdsBelow(Order(t, PreOrder), |info0|)
    ensures Spans(Threadified(info0, t, PreOrder), t) && PointersIn(Threadified(info0, t, PreOrder))
    ensures Walks(Threadified(info0, t, PreOrder), t, PreOrder, Order(t, PreOrder), Stop)
  {
    ThreadedSpans(info0, t, PreOrder);
    var s := Order(t, PreOrder);
    forall i | 0 <= i < |s|
      ensures NextNode(Threadified(info0, t, PreOrder), t, PreOrder, s[i]) ==
        if i + 1 < |s| then Next(s[i + 1]) else Stop
    {
      PreStep(info0, t, i);
    }
    PreStep(info0, t, |s| - 1);
    StartIsFirst(t, PreOrder);
  }

  /** In-order: the walk lists the whole order and stops. */
  lemma InWalk(info0: seq<BinaryInfo>, t: Tree)
    requires FreshTree(info0, t)
    ensures IdsBelow(Order(t, InOrder), |info0|)
    ensures Spans(Threadified(info0, t, InOrder), t) && PointersIn(Threadified(info0, t, InOrder))
    ensures Walks(Threadified(info0, t, InOrder), t, InOrder, Order(t, InOrder), Stop)
  {
    ThreadedSpans(info0, t, InOrder);
    var s := Order(t, InOrder);
    forall i | 0 <= i < |s|
      ensures NextNode(Threadified(info0, t, InOrder), t, InOrder, s[i]) ==
        if i + 1 < |s| then Next(s[i + 1]) else Stop
    {
      InStep(info0, t, i);
    }
    InStep(info0, t, |s| - 1);
    StartIsFirst(t, InOrder);
  }

  /** Post-order without the faulting shape: the walk lists the whole order and stops. */
  lemma PostWalk(info0: seq<BinaryInfo>, t: Tree)
    requires FreshTree(info0, t) && !PostFault(t)
    ensures IdsBelow(Order(t, PostOrder), |info0|)
    ensures Spans(Threadified(info0, t, PostOrder), t) && PointersIn(Threadified(info0, t, PostOrder))
    ensures Walks(Threadified(info0, t, PostOrder), t, PostOrder, Order(t, PostOrder), Stop)
  {
    PostLastStep(info0, t);
    var s := Order(t, PostOrder);
    forall i | 0 <= i < |s| - 1
      ensures NextNode(Threadified(info0, t, PostOrder), t, PostOrder, s[i]) == Next(s[i + 1])
    {
      PostStep(info0, t, i);
    }
    StartIsFirst(t, PostOrder);
  }

  /** Post-order on the faulting shape, one step from position `i` of the left subtree's order. */
  lemma PostFaultStep(info0: seq<BinaryInfo>, t: Tree, i: nat)
    requires FreshTree(info0, t) && PostFault(t) && i < |Order(t.left, PostOrder)|
    ensures IdsBelow(Order(t, PostOrder), |info0|)
    ensures Spans(Threadified(info0, t, PostOrder), t) && PointersIn(Threadified(info0, t, PostOrder))
    ensures Order(t.left, PostOrder)[i] < |info0|
    ensures var l := Order(t.left, PostOrder);
      NextNode(Threadified(info0, t, PostOrder), t, PostOrder, l[i]) == if i + 1 < |l| then Next(l[i + 1]) else Fault
  {
    var s := Order(t, PostOrder);
    var l := Order(t.left, PostOrder);
    OrderParts(t, PostOrder);
    OrderParts(t.left, PostOrder);
    assert s == l + [t.id];
    OrderNoDup(t, PostOrder);
    var last := |l| - 1;
    assert l[last] == t.left.id;
    assert s[i] == l[i];
    OrderAt(t, PostOrder, i);
    if i < last {
      assert s[i] != s[last];
    }
    PostStep(info0, t, i);
  }

  /**
   * Post-order on the faulting shape: the walk lists the left subtree in post-order and then
   * reads the root's null right pointer; the root itself is never emitted.
   */
  lemma PostFaultWalk(info0: seq<BinaryInfo>, t: Tree)
    requires FreshTree(info0, t) && PostFault(t)
    ensures IdsBelow(Order(t, PostOrder), |info0|)
    ensures Spans(Threadified(info0, t, PostOrder), t) && PointersIn(Threadified(info0, t, PostOrder))
    ensures Walks(Threadified(info0, t, PostOrder), t, PostOrder, Order(t.left, PostOrder), Fault)
    ensures Order(t.left, PostOrder)[0] == StartNode(t, PostOrder, t.id)
  {
    ThreadedSpans(info0, t, PostOrder);
    var info := Threadified(info0, t, PostOrder);
    var l := Order(t.left, PostOrder);
    OrderParts(t.left, PostOrder);
    forall i | 0 <= i < |l|
      ensures l[i] < |info|
      ensures NextNode(info, t, PostOrder, l[i]) == if i + 1 < |l| then Next(l[i + 1]) else Fault
    {
      PostFaultStep(info0, t, i);
    }
    PostFaultStep(info0, t, |l| - 1);
    assert Walks(info, t, PostOrder, l, Fault);
    PostFaultStart(t);
  }

  /** On the faulting shape the post-order walk starts where the left subtree's post-order does. */
  lemma PostFaultStart(t: Tree)
    requires t.Node? && Distinct(t) && LeftBiased(t) && PostFault(t)
    ensures |Order(t.left, PostOrder)| > 0
    ensures Order(t.left, PostOrder)[0] == StartNode(t, PostOrder, t.id)
  {
    OrderParts(t, PostOrder);
    OrderParts(t.left, PostOrder);
    StartIsFirst(t, PostOrder);
    assert Order(t, PostOrder)[0] == Order(t.left, PostOrder)[0];
  }

  /**
   * The threaded walk on a freshly built tree threaded for the same order: the walk that
   * exists lists the recursive traversal of the built pointers and stops, except on the
   * post-order faulting shape, where it lists the left subtree and faults.
   */
  lemma FreshWalk(info0: seq<BinaryInfo>, t: Tree, order: TraversalOrder) returns (ws: seq<nat>, we: Step)
    requires FreshTree(info0, t)
    ensures IdsBelow(Order(t, order), |info0|)
    ensures Spans(Threadified(info0, t, order), t) && PointersIn(Threadified(info0, t, order))
    ensures Walks(Threadified(info0, t, order), t, order, ws, we) && ws[0] == StartNode(t, order, t.id)
    ensures Raw(info0, Some(t.id), t)
    ensures if order == PostOrder && PostFault(t) then ws == Order(t.left, PostOrder) && we == Fault
      else ws == Traverse(info0, Some(t.id), order, t) && we == Stop
  {
    FreshIsRawAndReal(info0, t, None);
    StartIsFirst(t, order);
    match order
    case PreOrder =>
      PreWalk(info0, t);
      ws, we := Order(t, PreOrder), Stop;
    case InOrder =>
      InWalk(info0, t);
      ws, we := Order(t, InOrder), Stop;
    case PostOrder =>
      if PostFault(t) {
        PostFaultWalk(info0, t);
        ws, we := Order(t.left, PostOrder), Fault;
      } else {
        PostWalk(info0, t);
        ws, we := Order(t, PostOrder), Stop;
      }
  }

  /** Any walk from the start on a freshly threaded tree is the one FreshWalk describes. */
  lemma ThreadedWalkIsTraversal(info0: seq<BinaryInfo>, t: Tree, order: TraversalOrder, s: seq<nat>, e: Step)
    requires FreshTree(info0, t)
    requires IdsBelow(Order(t, order), |info0|)
    requires Spans(Threadified(info0, t, order), t) && PointersIn(Threadified(info0, t, order))
    requires Walks(Threadified(info0, t, order), t, order, s, e) && s[0] == StartNode(t, order, t.id)
    ensures Raw(info0, Some(t.id), t)
    ensures e == Fault <==> order == PostOrder && PostFault(t)
    ensures e != Fault ==> e == Stop && s == Traverse(info0, Some(t.id), order, t)
    ensures e == Fault ==> s == Order(t.left, PostOrder) && t.id !in s
  {
    var ws, we := FreshWalk(info0, t, order);
    WalksUnique(Threadified(info0, t, order), t, order, s, e, ws, we);
    if e == Fault {
      OrderElems(t.left, PostOrder);
      assert t.id !in Ids(t.left);
    }
  }

  // ---------------------------------------------------------------------------
  // Threading again after a threaded traversal, without rebuilding the tree.

  /** Node 0 with children 1 and 2; node 1 with children 3 and 4. */
  const ExampleTree: Tree := Node(0, Node(1, Node(3, Nil, Nil), Node(4, Nil, Nil)), Node(2, Nil, Nil))

  /** The records BuildBinaryTree gives ExampleTree. */
  const ExampleBuilt: seq<BinaryInfo> := [
    BinaryInfo(None, Some(1), false, Some(2), false),
    BinaryInfo(Some(0), Some(3), false, Some(4), false),
    BinaryInfo(Some(0), None, false, None, false),
    BinaryInfo(Some(1), None, false, None, false),
    BinaryInfo(Some(1), None, false, None, false)]

  /**
   * A threaded in-order traversal of ExampleTree leaves node 3's left flag and node 2's right
   * flag set. Threading the same records for pre-order then skips node 3's left thread and,
   * because the successor guard reads node 2's stale flag, never threads node 4 to node 2:
   * the threaded pre-order walk emits 0, 1, 3, 4 and stops, leaving out node 2, which the
   * recursive traversal of the same records still lists.
   */
  lemma StaleFlagsDropNode()
    ensures FreshTree(ExampleBuilt, ExampleTree)
    ensures IdsBelow(Order(ExampleTree, InOrder), |ExampleBuilt|)
    ensures var info1 := Unthreaded(Threadified(ExampleBuilt, ExampleTree, InOrder), Ids(ExampleTree));
      && IdsBelow(Order(ExampleTree, PreOrder), |info1|)
      && Raw(info1, Some(0), ExampleTree)
      && Traverse(info1, Some(0), PreOrder, ExampleTree) == [0, 1, 3, 4, 2]
      && var info2 := Threadified(info1, ExampleTree, PreOrder);
      && Spans(info2, ExampleTree) && PointersIn(info2)
      && Walks(info2, ExampleTree, PreOrder, [0, 1, 3, 4], Stop)
      && StartNode(ExampleTree, PreOrder, 0) == 0
  {
    ExampleOrders();
    StaleAfterRoundTrip();
    TraverseAfterRoundTrip(ExampleBuilt, ExampleTree, InOrder, PreOrder);
    StaleRethreaded();
    assert Threadified(ExampleStale, ExampleTree, PreOrder) == ExampleRethreaded;
    StaleWalk();
  }

  /** ExampleBuilt is what BuildBinaryTree gives ExampleTree, and the tree's two orders used below. */
  lemma ExampleOrders()
    ensures FreshTree(ExampleBuilt, ExampleTree)
    ensures Ids(ExampleTree) == {0, 1, 2, 3, 4}
    ensures Order(ExampleTree, InOrder) == [3, 1, 4, 0, 2]
    ensures Order(ExampleTree, PreOrder) == [0, 1, 3, 4, 2]
  {
    ExampleIds();
    ExampleFresh();
  }

  lemma ExampleIds()
    ensures Ids(ExampleTree) == {0, 1, 2, 3, 4} && Distinct(ExampleTree)
  {
    assert Ids(ExampleTree.left) == {1, 3, 4};
  }

  lemma ExampleFresh()
    requires Ids(ExampleTree) == {0, 1, 2, 3, 4} && Distinct(ExampleTree)
    ensures FreshTree(ExampleBuilt, ExampleTree)
  {
    assert Fresh(ExampleBuilt, ExampleTree.left, Some(0));
  }

  /** The threaded in-order round trip leaves ExampleBuilt as ExampleStale. */
  lemma StaleAfterRoundTrip()
    ensures IdsBelow(Order(ExampleTree, InOrder), |ExampleBuilt|)
    ensures Unthreaded(Threadified(ExampleBuilt, ExampleTree, InOrder), Ids(ExampleTree)) == ExampleStale
  {
    ExampleOrders();
    RoundTripSlots(ExampleBuilt, ExampleTree, InOrder, ExampleStale);
  }

  /**
   * The round trip on a freshly built tree gives `expected` when `expected` has, at every
   * position of the order, the fresh record with the two flags Unthreadify leaves set.
   */
  lemma RoundTripSlots(info0: seq<BinaryInfo>, t: Tree, order: TraversalOrder, expected: seq<BinaryInfo>)
    requires FreshTree(info0, t) && |expected| == |info0|
    requires var s := Order(t, order);
      forall k | 0 <= k < |s| :: s[k] < |info0| && expected[s[k]] == info0[s[k]].(
        isLeftThread := k == 0 && info0[s[k]].leftChild.None?,
        isRightThread := k + 1 == |s| && order != PostOrder)
    ensures IdsBelow(Order(t, order), |info0|)
    ensures Unthreaded(Threadified(info0, t, order), Ids(t)) == expected
  {
    UnthreadRoundTrip(info0, t, order);
    var s := Order(t, order);
    var r := Unthreaded(Threadified(info0, t, order), Ids(t));
    forall x | 0 <= x < |info0|
      ensures r[x] == expected[x]
    {
      var k := PositionOf(t, order, x);
      assert r[s[k]] == expected[s[k]];
    }
  }

  /** The pre-order walk on ExampleRethreaded: 0, 1, 3, 4 and stop. */
  lemma StaleWalk()
    ensures Spans(ExampleRethreaded, ExampleTree) && PointersIn(ExampleRethreaded)
    ensures Walks(ExampleRethreaded, ExampleTree, PreOrder, [0, 1, 3, 4], Stop)
  {
    ExampleOrders();
    assert Real(ExampleRethreaded, ExampleTree);
  }

  /** ExampleBuilt after the threaded in-order round trip: node 3's left and node 2's right flag stay set. */
  const ExampleStale: seq<BinaryInfo> := [
    BinaryInfo(None, Some(1), false, Some(2), false),
    BinaryInfo(Some(0), Some(3), false, Some(4), false),
    BinaryInfo(Some(0), None, false, None, true),
    BinaryInfo(Some(1), None, true, None, false),
    BinaryInfo(Some(1), None, false, None, false)]

  /** ExampleStale after the pre-order visits of 0, 1, 3 and 4. */
  const ExampleVisited: seq<BinaryInfo> := [
    BinaryInfo(None, Some(1), false, Some(2), false),
    BinaryInfo(Some(0), Some(3), false, Some(4), false),
    BinaryInfo(Some(0), None, false, None, true),
    BinaryInfo(Some(1), None, true, Some(4), true),
    BinaryInfo(Some(1), Some(3), true, None, false)]

  /** ExampleStale threaded for pre-order. */
  const ExampleRethreaded: seq<BinaryInfo> := [
    BinaryInfo(None, Some(1), false, Some(2), false),
    BinaryInfo(Some(0), Some(3), false, Some(4), false),
    BinaryInfo(Some(0), Some(4), true, None, true),
    BinaryInfo(Some(1), None, true, Some(4), true),
    BinaryInfo(Some(1), Some(3), true, None, false)]

  /** The pre-order fold over ExampleTree on ExampleStale. */
  lemma StaleRethreaded()
    ensures IdsBelow([0, 1, 3, 4, 2], 5)
    ensures ThreadSeq(ExampleStale, None, [0, 1, 3, 4, 2]) == (ExampleRethreaded, Some(2))
  {
    var stale := ExampleStale;
    ThreadSeqOne(stale, None, 0);
    StaleVisits();
    FoldVisit(stale, None, [0], 1);
    assert [0] + [1] == [0, 1];
    FoldVisit(stale, None, [0, 1], 3);
    assert [0, 1] + [3] == [0, 1, 3];
    FoldVisit(stale, None, [0, 1, 3], 4);
    assert [0, 1, 3] + [4] == [0, 1, 3, 4];
    FoldVisit(stale, None, [0, 1, 3, 4], 2);
    assert [0, 1, 3, 4] + [2] == [0, 1, 3, 4, 2];
  }

  /** The five visits, one at a time. */
  lemma StaleVisits()
    ensures SelfThreadify(ExampleStale, 0, None) == ExampleStale
    ensures SelfThreadify(ExampleStale, 1, Some(0)) == ExampleStale
    ensures SelfThreadify(ExampleStale, 3, Some(1)) == ExampleStale
    ensures SelfThreadify(ExampleStale, 4, Some(3)) == ExampleVisited
    ensures SelfThreadify(ExampleVisited, 2, Some(4)) == ExampleRethreaded
  {
    var stale := ExampleStale;
    assert ThreadLeft(stale, 4, Some(3)) == stale[4 := ExampleVisited[4]];
    assert ThreadRight(stale[4 := ExampleVisited[4]], 4, Some(3)) == ExampleVisited;
    assert ThreadLeft(ExampleVisited, 2, Some(4)) == ExampleRethreaded;
  }
}
