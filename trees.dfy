/**
 * Abstract binary trees over node ids: what the BinaryInfo pointers of a built tree mean.
 * `Order` is the reference definition of the three traversal orders; the lemmas below
 * state, for each order, which node follows a given node, which is what a threaded walk
 * has to reproduce step by step.
 */
module Trees {
  import opened Wrappers

  datatype TraversalOrder = PreOrder | InOrder | PostOrder

  datatype Tree = Nil | Node(id: nat, left: Tree, right: Tree)

  function RootId(t: Tree): Option<nat> {
    if t.Nil? then None else Some(t.id)
  }

  function Ids(t: Tree): set<nat> {
    if t.Nil? then {} else {t.id} + Ids(t.left) + Ids(t.right)
  }

  /** No id occurs twice: every graph node is one tree node. */
  predicate Distinct(t: Tree) {
    t.Node? ==>
      && t.id !in Ids(t.left)
      && t.id !in Ids(t.right)
      && Ids(t.left) !! Ids(t.right)
      && Distinct(t.left)
      && Distinct(t.right)
  }

  /** Every node with a right subtree also has a left one (an only child is put on the left). */
  predicate LeftBiased(t: Tree) {
    t.Node? ==> (t.right.Node? ==> t.left.Node?) && LeftBiased(t.left) && LeftBiased(t.right)
  }

  /** The reference traversal: the node before, between or after its two subtrees. */
  function Order(t: Tree, order: TraversalOrder): seq<nat> {
    if t.Nil? then []
    else match order
      case PreOrder => [t.id] + Order(t.left, order) + Order(t.right, order)
      case InOrder => Order(t.left, order) + [t.id] + Order(t.right, order)
      case PostOrder => Order(t.left, order) + Order(t.right, order) + [t.id]
  }

  /** Every order lists the node itself once, around its left and then its right subtree. */
  lemma OrderParts(t: Tree, order: TraversalOrder)
    requires t.Node?
    ensures Order(t, order) ==
      (if order == PreOrder then [t.id] else []) + Order(t.left, order)
      + (if order == InOrder then [t.id] else []) + Order(t.right, order)
      + (if order == PostOrder then [t.id] else [])
  {
    var l, r := Order(t.left, order), Order(t.right, order);
    match order
    case PreOrder =>
      AppendNil([t.id] + l);
      AppendNil([t.id] + l + r);
    case InOrder =>
      AppendNil(l);
      AppendNil(l + [t.id] + r);
    case PostOrder =>
      AppendNil(l);
  }

  lemma AppendNil(s: seq<nat>)
    ensures s + [] == s && [] + s == s
  {
  }

  /** The order assembled piece by piece, the way a recursive walk emits it. */
  lemma OrderAssembled(t: Tree, order: TraversalOrder, d1: seq<nat>, d2: seq<nat>, d3: seq<nat>, d4: seq<nat>, d5: seq<nat>)
    requires t.Node?
    requires d1 == [] + (if order == PreOrder then [t.id] else [])
    requires d2 == d1 + Order(t.left, order)
    requires d3 == d2 + (if order == InOrder then [t.id] else [])
    requires d4 == d3 + Order(t.right, order)
    requires d5 == d4 + (if order == PostOrder then [t.id] else [])
    ensures d5 == Order(t, order)
  {
    OrderParts(t, order);
    AppendNil(d1);
  }

  predicate NoDup(s: seq<nat>) {
    forall i, j | 0 <= i < j < |s| :: s[i] != s[j]
  }

  /** The subtree rooted at node `x` (Nil when `x` is not in `t`). */
  function Find(t: Tree, x: nat): Tree {
    if t.Nil? then Nil
    else if t.id == x then t
    else if x in Ids(t.left) then Find(t.left, x)
    else Find(t.right, x)
  }

  /** The tree parent of node `x` (None for the root and for nodes not in `t`). */
  function ParentOf(t: Tree, x: nat): Option<nat> {
    if t.Nil? then None
    else if RootId(t.left) == Some(x) || RootId(t.right) == Some(x) then Some(t.id)
    else if x in Ids(t.left) then ParentOf(t.left, x)
    else ParentOf(t.right, x)
  }

  /** The node reached by following left children only. */
  function LeftmostId(t: Tree): nat
    requires t.Node?
  {
    if t.left.Nil? then t.id else LeftmostId(t.left)
  }

  /** The node reached by descending, left when possible and right otherwise, down to a leaf. */
  function FirstPostId(t: Tree): nat
    requires t.Node?
  {
    if t.left.Node? then FirstPostId(t.left)
    else if t.right.Node? then FirstPostId(t.right)
    else t.id
  }

  function LeafIds(t: Tree): set<nat> {
    if t.Nil? then {}
    else if t.left.Nil? && t.right.Nil? then {t.id}
    else LeafIds(t.left) + LeafIds(t.right)
  }

  // ---------------------------------------------------------------------------
  // Every traversal lists every node of the tree exactly once.

  lemma {:induction false} NoDupConcat(a: seq<nat>, b: seq<nat>)
    requires NoDup(a) && NoDup(b)
    requires forall x | x in a :: x !in b
    ensures NoDup(a + b)
  {
    forall i, j | 0 <= i < j < |a + b|
      ensures (a + b)[i] != (a + b)[j]
    {
      if j < |a| {
      } else if i >= |a| {
        assert (a + b)[i] == b[i - |a|] && (a + b)[j] == b[j - |a|];
      } else {
        assert (a + b)[i] in a && (a + b)[j] == b[j - |a|];
      }
    }
  }

  lemma {:induction false} OrderElems(t: Tree, order: TraversalOrder)
    ensures forall x :: x in Order(t, order) <==> x in Ids(t)
    ensures Distinct(t) ==> NoDup(Order(t, order))
  {
    if t.Node? {
      OrderElems(t.left, order);
      OrderElems(t.right, order);
      var l, r := Order(t.left, order), Order(t.right, order);
      if Distinct(t) {
        match order
        case PreOrder =>
          NoDupConcat([t.id], l);
          NoDupConcat([t.id] + l, r);
        case InOrder =>
          NoDupConcat(l, [t.id]);
          NoDupConcat(l + [t.id], r);
        case PostOrder =>
          NoDupConcat(l, r);
          NoDupConcat(l + r, [t.id]);
      }
    }
  }

  /** A traversal of a tree with distinct ids repeats no node. */
  lemma OrderNoDup(t: Tree, order: TraversalOrder)
    requires Distinct(t)
    ensures NoDup(Order(t, order))
  {
    OrderElems(t, order);
  }

  /** Each position of a traversal holds a node of the tree. */
  lemma OrderAt(t: Tree, order: TraversalOrder, i: nat)
    requires i < |Order(t, order)|
    ensures Order(t, order)[i] in Ids(t)
  {
    OrderElems(t, order);
    assert Order(t, order)[i] in Order(t, order);
  }

  // ---------------------------------------------------------------------------
  // Find and ParentOf on trees with distinct ids.

  lemma {:induction false} FindIn(t: Tree, x: nat)
    requires Distinct(t) && x in Ids(t)
    ensures Find(t, x).Node? && Find(t, x).id == x
    ensures Ids(Find(t, x)) <= Ids(t)
    ensures Distinct(Find(t, x))
    ensures LeftBiased(t) ==> LeftBiased(Find(t, x))
  {
    if t.id != x {
      if x in Ids(t.left) {
        FindIn(t.left, x);
      } else {
        FindIn(t.right, x);
      }
    }
  }

  /** Below a node, finding an id of its left subtree searches that subtree. */
  lemma FindLeft(t: Tree, x: nat)
    requires Distinct(t) && t.Node? && x in Ids(t.left)
    ensures Find(t, x) == Find(t.left, x)
  {
    assert x != t.id;
  }

  /** Below a node, finding an id of its right subtree searches that subtree. */
  lemma FindRight(t: Tree, x: nat)
    requires Distinct(t) && t.Node? && x in Ids(t.right)
    ensures Find(t, x) == Find(t.right, x)
  {
    assert x != t.id && x !in Ids(t.left);
  }

  /** The children of the subtree found for `x` are found at their own ids. */
  lemma {:induction false} FindChild(t: Tree, x: nat)
    requires Distinct(t) && x in Ids(t)
    ensures Find(t, x).Node?
    ensures Find(t, x).left.Node? ==>
      Find(t, x).left.id in Ids(t) && Find(t, Find(t, x).left.id) == Find(t, x).left
    ensures Find(t, x).right.Node? ==>
      Find(t, x).right.id in Ids(t) && Find(t, Find(t, x).right.id) == Find(t, x).right
  {
    FindIn(t, x);
    if t.id != x {
      if x in Ids(t.left) {
        FindChild(t.left, x);
        FindIn(t.left, x);
      } else {
        FindChild(t.right, x);
        FindIn(t.right, x);
      }
    }
  }

  /** ParentOf names a node of the tree one of whose children is `x`; only the root has none. */
  lemma {:induction false} ParentOfIn(t: Tree, x: nat)
    requires Distinct(t) && x in Ids(t)
    ensures ParentOf(t, x).None? <==> x == t.id
    ensures ParentOf(t, x).Some? ==>
      var p := ParentOf(t, x).value;
      && p in Ids(t)
      && Find(t, p).Node?
      && (RootId(Find(t, p).left) == Some(x) || RootId(Find(t, p).right) == Some(x))
  {
    if t.id != x {
      if RootId(t.left) == Some(x) || RootId(t.right) == Some(x) {
      } else if x in Ids(t.left) {
        ParentOfIn(t.left, x);
        var p := ParentOf(t.left, x).value;
        FindIn(t.left, p);
      } else {
        ParentOfIn(t.right, x);
        var p := ParentOf(t.right, x).value;
        FindIn(t.right, p);
      }
    } else {
      ParentOfOutside(t.right, x);
    }
  }

  lemma {:induction false} ParentOfOutside(t: Tree, x: nat)
    requires x !in Ids(t)
    ensures ParentOf(t, x) == None
  {
    if t.Node? {
      ParentOfOutside(t.right, x);
    }
  }

  // ---------------------------------------------------------------------------
  // First and last nodes of each order.

  lemma {:induction false} InFirst(t: Tree)
    requires t.Node?
    ensures Order(t, InOrder)[0] == LeftmostId(t)
  {
    if t.left.Node? {
      InFirst(t.left);
    }
  }

  lemma {:induction false} PostFirst(t: Tree)
    requires t.Node?
    ensures Order(t, PostOrder)[0] == FirstPostId(t)
  {
    if t.left.Node? {
      PostFirst(t.left);
    } else if t.right.Node? {
      PostFirst(t.right);
    }
  }

  /** In a left-biased tree the left spine ends at the first post-order node. */
  lemma {:induction false} LeftBiasedPostFirst(t: Tree)
    requires t.Node? && LeftBiased(t)
    ensures FirstPostId(t) == LeftmostId(t)
  {
    if t.left.Node? {
      LeftBiasedPostFirst(t.left);
    }
  }

  /** The last pre-order or in-order node has no right subtree (the last pre-order node is a leaf). */
  lemma {:induction false} LastHasNoRight(t: Tree, order: TraversalOrder)
    requires t.Node? && Distinct(t) && order != PostOrder
    ensures |Order(t, order)| > 0
    ensures var x := Order(t, order)[|Order(t, order)| - 1];
      x in Ids(t) && Find(t, x).Node? && Find(t, x).right.Nil? && (order == PreOrder ==> Find(t, x).left.Nil?)
  {
    var s := Order(t, order);
    var l, r := Order(t.left, order), Order(t.right, order);
    assert s == (if order == PreOrder then [t.id] + l else l + [t.id]) + r;
    if t.right.Node? {
      LastHasNoRight(t.right, order);
      var x := r[|r| - 1];
      assert s[|s| - 1] == x;
      FindRight(t, x);
    } else if order == PreOrder && t.left.Node? {
      assert r == [];
      LastHasNoRight(t.left, order);
      var x := l[|l| - 1];
      assert s[|s| - 1] == x;
      FindLeft(t, x);
    } else {
      assert r == [];
      assert s[|s| - 1] == t.id;
    }
  }

  // ---------------------------------------------------------------------------
  // The successor of a node in each order.

  /** Pre-order: a node is followed by its left child, or by its right child when it has no left one. */
  lemma {:induction false} PreSucc(t: Tree, k: nat)
    requires Distinct(t)
    requires k + 1 < |Order(t, PreOrder)|
    ensures var s := Order(t, PreOrder); var sub := Find(t, s[k]);
      && sub.Node?
      && (sub.left.Node? ==> s[k + 1] == sub.left.id)
      && (sub.left.Nil? && sub.right.Node? ==> s[k + 1] == sub.right.id)
  {
    var s := Order(t, PreOrder);
    var l, r := Order(t.left, PreOrder), Order(t.right, PreOrder);
    assert s == [t.id] + l + r;
    if k == 0 {
      assert s[0] == t.id;
      if t.left.Node? {
        assert s[1] == l[0];
      } else if t.right.Node? {
        assert l == [];
        assert s[1] == r[0];
      }
    } else if k <= |l| {
      var x := s[k];
      assert x == l[k - 1];
      OrderElems(t.left, PreOrder);
      FindLeft(t, x);
      if k < |l| {
        PreSucc(t.left, k - 1);
        assert s[k + 1] == l[k];
      } else {
        LastHasNoRight(t.left, PreOrder);
      }
    } else {
      var x := s[k];
      assert x == r[k - 1 - |l|];
      OrderElems(t.right, PreOrder);
      FindRight(t, x);
      PreSucc(t.right, k - 1 - |l|);
      assert s[k + 1] == r[k - |l|];
    }
  }

  /** In-order: a node with a right subtree is followed by the leftmost node of that subtree. */
  lemma {:induction false} InSucc(t: Tree, k: nat)
    requires Distinct(t)
    requires k + 1 < |Order(t, InOrder)|
    ensures var s := Order(t, InOrder); var sub := Find(t, s[k]);
      sub.Node? && (sub.right.Node? ==> s[k + 1] == LeftmostId(sub.right))
  {
    var s := Order(t, InOrder);
    var l, r := Order(t.left, InOrder), Order(t.right, InOrder);
    OrderElems(t, InOrder);
    FindIn(t, s[k]);
    assert s == l + [t.id] + r;
    OrderElems(t.left, InOrder);
    OrderElems(t.right, InOrder);
    if k < |l| {
      var x := s[k];
      assert x == l[k] && x in Ids(t.left);
      assert Find(t, x) == Find(t.left, x);
      if k + 1 < |l| {
        InSucc(t.left, k);
        assert s[k + 1] == l[k + 1];
      } else {
        LastHasNoRight(t.left, InOrder);
      }
    } else if k == |l| {
      assert s[k] == t.id;
      if t.right.Node? {
        InFirst(t.right);
        assert s[k + 1] == r[0];
      }
    } else {
      var x := s[k];
      assert x == r[k - 1 - |l|] && x in Ids(t.right);
      assert Find(t, x) == Find(t.right, x);
      InSucc(t.right, k - 1 - |l|);
      assert s[k + 1] == r[k - |l|];
    }
  }

  /** What PostSucc states about position `k` of a post-order sequence `s` of `t`. */
  predicate PostFollows(t: Tree, s: seq<nat>, k: nat, p: nat)
    requires k + 1 < |s|
  {
    var par := Find(t, p);
    && par.Node?
    && (RootId(par.left) == Some(s[k]) && par.right.Node? ==> s[k + 1] == FirstPostId(par.right))
    && (RootId(par.left) != Some(s[k]) || par.right.Nil? ==> s[k + 1] == p)
  }

  /**
   * Post-order: a left child whose parent has a right subtree is followed by the first
   * post-order node of that subtree; every other non-root node is followed by its parent.
   */
  lemma {:induction false} PostSucc(t: Tree, k: nat, p: nat)
    requires Distinct(t)
    requires k + 1 < |Order(t, PostOrder)|
    requires ParentOf(t, Order(t, PostOrder)[k]) == Some(p)
    ensures p in Ids(t)
    ensures PostFollows(t, Order(t, PostOrder), k, p)
    decreases t, 1
  {
    var s := Order(t, PostOrder);
    var l, r := Order(t.left, PostOrder), Order(t.right, PostOrder);
    assert s == l + r + [t.id];
    OrderElems(t, PostOrder);
    ParentOfIn(t, s[k]);
    FindIn(t, p);
    if k + 1 < |l| {
      PostSuccLeft(t, k, p);
    } else if k + 1 == |l| {
      OrderElems(t.left, PostOrder);
      assert s[k] == t.left.id;
      assert p == t.id;
      if t.right.Node? {
        PostFirst(t.right);
        assert s[k + 1] == r[0];
      }
    } else if k + 1 < |l| + |r| {
      PostSuccRight(t, k, p);
    } else {
      assert s[k] == t.right.id;
      OrderElems(t.left, PostOrder);
      assert p == t.id;
    }
  }

  lemma {:induction false} PostSuccLeft(t: Tree, k: nat, p: nat)
    requires Distinct(t) && t.Node?
    requires k + 1 < |Order(t.left, PostOrder)|
    requires ParentOf(t, Order(t, PostOrder)[k]) == Some(p)
    ensures p in Ids(t)
    ensures k + 1 < |Order(t, PostOrder)| && PostFollows(t, Order(t, PostOrder), k, p)
    decreases t, 0
  {
    var s := Order(t, PostOrder);
    var l, r := Order(t.left, PostOrder), Order(t.right, PostOrder);
    assert s == l + r + [t.id];
    OrderElems(t.left, PostOrder);
    var x := s[k];
    assert x == l[k] && x in Ids(t.left);
    assert l[|l| - 1] == t.left.id;
    assert l[k] != l[|l| - 1];
    assert ParentOf(t.left, x) == Some(p);
    PostSucc(t.left, k, p);
    assert Find(t, p) == Find(t.left, p);
    assert s[k + 1] == l[k + 1];
  }

  lemma {:induction false} PostSuccRight(t: Tree, k: nat, p: nat)
    requires Distinct(t) && t.Node?
    requires |Order(t.left, PostOrder)| <= k
    requires k + 1 < |Order(t.left, PostOrder)| + |Order(t.right, PostOrder)|
    requires ParentOf(t, Order(t, PostOrder)[k]) == Some(p)
    ensures p in Ids(t)
    ensures k + 1 < |Order(t, PostOrder)| && PostFollows(t, Order(t, PostOrder), k, p)
    decreases t, 0
  {
    var s := Order(t, PostOrder);
    var l, r := Order(t.left, PostOrder), Order(t.right, PostOrder);
    assert s == l + r + [t.id];
    OrderElems(t.left, PostOrder);
    OrderElems(t.right, PostOrder);
    var j := k - |l|;
    var x := s[k];
    assert x == r[j] && x in Ids(t.right);
    assert r[|r| - 1] == t.right.id;
    assert r[j] != r[|r| - 1];
    assert RootId(t.left) != Some(x);
    assert ParentOf(t.right, x) == Some(p);
    PostSucc(t.right, j, p);
    assert Find(t, p) == Find(t.right, p);
    assert s[k + 1] == r[j + 1];
  }

  // ---------------------------------------------------------------------------
  // Leaves.

  /** The leaves are exactly the nodes whose subtree has neither a left nor a right child. */
  lemma {:induction false} LeafIdsFind(t: Tree, x: nat)
    requires Distinct(t)
    ensures x in LeafIds(t) <==> x in Ids(t) && Find(t, x).Node? && Find(t, x).left.Nil? && Find(t, x).right.Nil?
  {
    if t.Node? && x != t.id {
      if x in Ids(t.left) {
        LeafIdsFind(t.left, x);
        LeafIdsFind(t.right, x);
        assert x !in Ids(t.right);
      } else {
        LeafIdsFind(t.left, x);
        LeafIdsFind(t.right, x);
      }
    } else if t.Node? {
      LeafIdsFind(t.left, x);
      LeafIdsFind(t.right, x);
    }
  }
}
