/**
 * The recursive Traverse of the main window: it follows the raw LeftChild / RightChild
 * pointers and never looks at a thread flag, so it lists the tree those pointers spell.
 */
module Traversal {
  import opened Wrappers
  import opened Trees
  import opened BinaryInfos
  import opened Threading

  /**
   * Nothing for a null node; otherwise the node before, between or after the walks from its
   * raw left and right pointers. `t` is the tree the raw pointers spell from `node`.
   */
  function Traverse(info: seq<BinaryInfo>, node: Option<nat>, order: TraversalOrder, ghost t: Tree): (r: seq<nat>)
    requires Raw(info, node, t)
    ensures r == Order(t, order)
    decreases t
  {
    if node.None? then []
    else
      var b := info[node.value];
      var left := Traverse(info, b.leftChild, order, t.left);
      var right := Traverse(info, b.rightChild, order, t.right);
      match order
      case PreOrder => [node.value] + left + right
      case InOrder => left + [node.value] + right
      case PostOrder => left + right + [node.value]
  }

  /** Raw depends only on the raw pointers of the tree's own nodes. */
  lemma {:induction false} RawFrame(info: seq<BinaryInfo>, info': seq<BinaryInfo>, node: Option<nat>, t: Tree)
    requires Raw(info, node, t) && |info'| == |info|
    requires forall x | x in Ids(t) && x < |info| ::
      info'[x].leftChild == info[x].leftChild && info'[x].rightChild == info[x].rightChild
    ensures Raw(info', node, t)
    decreases t
  {
    if t.Node? {
      RawFrame(info, info', info[t.id].leftChild, t.left);
      RawFrame(info, info', info[t.id].rightChild, t.right);
    }
  }

  /** The position of a node of `t` in an order of `t`. */
  lemma PositionOf(t: Tree, order: TraversalOrder, x: nat) returns (k: nat)
    requires x in Ids(t)
    ensures k < |Order(t, order)| && Order(t, order)[k] == x
  {
    OrderElems(t, order);
    k :| 0 <= k < |Order(t, order)| && Order(t, order)[k] == x;
  }

  /**
   * After Threadify and Unthreadify on a freshly built tree the raw pointers spell the tree
   * again, so Traverse lists it in every order, although two thread flags stay set.
   */
  lemma TraverseAfterRoundTrip(info0: seq<BinaryInfo>, t: Tree, threaded: TraversalOrder, order: TraversalOrder)
    requires Fresh(info0, t, None) && Distinct(t) && t.Node?
    ensures IdsBelow(Order(t, threaded), |info0|)
    ensures var info := Unthreaded(Threadified(info0, t, threaded), Ids(t));
      Raw(info, Some(t.id), t) && Traverse(info, Some(t.id), order, t) == Order(t, order)
  {
    FreshIsRawAndReal(info0, t, None);
    OrderBelow(info0, t, threaded);
    UnthreadRoundTrip(info0, t, threaded);
    var s := Order(t, threaded);
    var info := Unthreaded(Threadified(info0, t, threaded), Ids(t));
    forall x | x in Ids(t) && x < |info0|
      ensures info[x].leftChild == info0[x].leftChild && info[x].rightChild == info0[x].rightChild
    {
      var k := PositionOf(t, threaded, x);
      assert info[s[k]] == info0[s[k]].(
        isLeftThread := k == 0 && info0[s[k]].leftChild.None?,
        isRightThread := k + 1 == |s| && threaded != PostOrder);
    }
    RawFrame(info0, info, Some(t.id), t);
  }
}
