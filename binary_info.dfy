/**
 * The BinaryInfo record each tree node carries in its UserData slot, and what it means for
 * the slots of all nodes to describe a tree. Slots are indexed by node id.
 */
module BinaryInfos {
  import opened Wrappers
  import opened Trees

  /**
   * Parent, left and right pointers (null is None); a pointer whose thread flag is set is a
   * thread to a traversal neighbour rather than a child.
   */
  datatype BinaryInfo = BinaryInfo(
    parent: Option<nat>,
    leftChild: Option<nat>,
    isLeftThread: bool,
    rightChild: Option<nat>,
    isRightThread: bool)
  {
    predicate HasLeftChild() {
      leftChild.Some? && !isLeftThread
    }

    predicate HasRightChild() {
      rightChild.Some? && !isRightThread
    }

    /** The left pointer when it is a child, otherwise None. */
    function RealLeft(): Option<nat> {
      if HasLeftChild() then leftChild else None
    }

    function RealRight(): Option<nat> {
      if HasRightChild() then rightChild else None
    }
  }

  /** The record BuildBinaryTree gives a node: children of `t`, no threads, parent `parent`. */
  function FreshInfo(t: Tree, parent: Option<nat>): BinaryInfo
    requires t.Node?
  {
    BinaryInfo(parent, RootId(t.left), false, RootId(t.right), false)
  }

  /** The slots of the nodes of `t` hold exactly what BuildBinaryTree stores for them. */
  predicate Fresh(info: seq<BinaryInfo>, t: Tree, parent: Option<nat>) {
    t.Node? ==>
      && t.id < |info|
      && info[t.id] == FreshInfo(t, parent)
      && Fresh(info, t.left, Some(t.id))
      && Fresh(info, t.right, Some(t.id))
  }

  /** The raw pointers, threads included, spell `t` from `node` down. */
  predicate Raw(info: seq<BinaryInfo>, node: Option<nat>, t: Tree)
    decreases t
  {
    && node == RootId(t)
    && (t.Node? ==>
      && t.id < |info|
      && Raw(info, info[t.id].leftChild, t.left)
      && Raw(info, info[t.id].rightChild, t.right))
  }

  /** The child pointers (HasLeftChild / HasRightChild) spell `t`, whatever the threads are. */
  predicate Real(info: seq<BinaryInfo>, t: Tree) {
    t.Node? ==>
      && t.id < |info|
      && info[t.id].RealLeft() == RootId(t.left)
      && info[t.id].RealRight() == RootId(t.right)
      && Real(info, t.left)
      && Real(info, t.right)
  }

  lemma {:induction false} FreshIsRawAndReal(info: seq<BinaryInfo>, t: Tree, parent: Option<nat>)
    requires Fresh(info, t, parent)
    ensures Raw(info, RootId(t), t)
    ensures Real(info, t)
  {
    if t.Node? {
      FreshIsRawAndReal(info, t.left, Some(t.id));
      FreshIsRawAndReal(info, t.right, Some(t.id));
    }
  }

  /** Slot by slot: a built node records its tree parent and its two subtrees' roots. */
  lemma {:induction false} FreshAt(info: seq<BinaryInfo>, t: Tree, parent: Option<nat>, x: nat)
    requires Fresh(info, t, parent) && Distinct(t) && x in Ids(t)
    ensures Find(t, x).Node? && x < |info|
    ensures info[x] == FreshInfo(Find(t, x), if x == t.id then parent else ParentOf(t, x))
  {
    FindIn(t, x);
    if x != t.id {
      if x in Ids(t.left) {
        FreshAt(info, t.left, Some(t.id), x);
        if x != t.left.id {
          assert RootId(t.right) != Some(x);
        }
      } else {
        FreshAt(info, t.right, Some(t.id), x);
      }
    }
  }

  /** Slot by slot: the child pointers of a node are its subtrees' roots. */
  lemma {:induction false} RealAt(info: seq<BinaryInfo>, t: Tree, x: nat)
    requires Real(info, t) && Distinct(t) && x in Ids(t)
    ensures Find(t, x).Node? && x < |info|
    ensures info[x].RealLeft() == RootId(Find(t, x).left)
    ensures info[x].RealRight() == RootId(Find(t, x).right)
  {
    FindIn(t, x);
    if x != t.id {
      if x in Ids(t.left) {
        RealAt(info, t.left, x);
      } else {
        RealAt(info, t.right, x);
      }
    }
  }

  /** Real depends only on the child pointers of the tree's own nodes. */
  lemma {:induction false} RealFrame(info: seq<BinaryInfo>, info': seq<BinaryInfo>, t: Tree)
    requires Real(info, t) && |info'| == |info|
    requires forall x | x in Ids(t) && x < |info| ::
      info'[x].RealLeft() == info[x].RealLeft() && info'[x].RealRight() == info[x].RealRight()
    ensures Real(info', t)
  {
    if t.Node? {
      RealFrame(info, info', t.left);
      RealFrame(info, info', t.right);
    }
  }

  lemma {:induction false} RealIdsIn(info: seq<BinaryInfo>, t: Tree)
    requires Real(info, t)
    ensures forall x | x in Ids(t) :: x < |info|
  {
    if t.Node? {
      RealIdsIn(info, t.left);
      RealIdsIn(info, t.right);
    }
  }

  // ---------------------------------------------------------------------------
  // Unthreadify.

  /** One node after Unthreadify: a thread pointer and its flag are cleared; a flag without a pointer stays. */
  function UnthreadNode(b: BinaryInfo): (r: BinaryInfo)
    ensures r.parent == b.parent && r.RealLeft() == b.RealLeft() && r.RealRight() == b.RealRight()
    ensures r.leftChild == b.RealLeft() && r.rightChild == b.RealRight()
    ensures r.isLeftThread == (b.isLeftThread && b.leftChild.None?)
    ensures r.isRightThread == (b.isRightThread && b.rightChild.None?)
  {
    var b1 := if b.leftChild.Some? && b.isLeftThread then b.(isLeftThread := false, leftChild := None) else b;
    if b1.rightChild.Some? && b1.isRightThread then b1.(isRightThread := false, rightChild := None) else b1
  }

  /** All slots after Unthreadify has visited the nodes `ids`. */
  function Unthreaded(info: seq<BinaryInfo>, ids: set<nat>): (r: seq<BinaryInfo>)
    ensures |r| == |info|
  {
    seq(|info|, i requires 0 <= i < |info| => if i in ids then UnthreadNode(info[i]) else info[i])
  }

  /** Unthreading two disjoint sets of nodes one after the other unthreads their union. */
  lemma UnthreadedUnion(info: seq<BinaryInfo>, a: set<nat>, b: set<nat>)
    requires a !! b
    ensures Unthreaded(Unthreaded(info, a), b) == Unthreaded(info, a + b)
  {
  }

  /** Unthreading keeps the child pointers, so they still spell `t`. */
  lemma UnthreadedReal(info: seq<BinaryInfo>, t: Tree, ids: set<nat>)
    requires Real(info, t)
    ensures Real(Unthreaded(info, ids), t)
  {
    RealFrame(info, Unthreaded(info, ids), t);
  }
}
