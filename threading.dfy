/**
 * Threadify as a fold of the per-node SelfThreadify step over the traversal order, the
 * closed form of its result on a freshly built tree, and what Unthreadify gives back.
 */
module Threading {
  import opened Wrappers
  import opened Trees
  import opened BinaryInfos

  predicate IdsBelow(s: seq<nat>, n: nat) {
    forall i | 0 <= i < |s| :: s[i] < n
  }

  predicate PriorIn(prior: Option<nat>, n: nat) {
    prior.Some? ==> prior.value < n
  }

  /**
   * One visit of `node` with `prior` the node visited before it: an absent left pointer
   * becomes a thread to `prior`, and an absent right pointer of `prior` becomes a thread to
   * `node` -- the latter only while `node`'s own right-thread flag is clear.
   */
  function SelfThreadify(info: seq<BinaryInfo>, node: nat, prior: Option<nat>): (r: seq<BinaryInfo>)
    requires node < |info| && PriorIn(prior, |info|)
    ensures |r| == |info|
    ensures forall x | 0 <= x < |info| && x != node && Some(x) != prior :: r[x] == info[x]
    ensures forall x | 0 <= x < |info| ::
      && r[x].parent == info[x].parent
      && r[x].RealLeft() == info[x].RealLeft()
      && r[x].RealRight() == info[x].RealRight()
  {
    ThreadRight(ThreadLeft(info, node, prior), node, prior)
  }

  /** The left half of SelfThreadify. */
  function ThreadLeft(info: seq<BinaryInfo>, node: nat, prior: Option<nat>): seq<BinaryInfo>
    requires node < |info|
  {
    var b := info[node];
    if !b.isLeftThread && b.leftChild.None? then info[node := b.(isLeftThread := true, leftChild := prior)]
    else info
  }

  /** The right half of SelfThreadify: the guard reads the flag of `node`, not of `prior`. */
  function ThreadRight(info: seq<BinaryInfo>, node: nat, prior: Option<nat>): seq<BinaryInfo>
    requires node < |info| && PriorIn(prior, |info|)
  {
    if prior.Some? && !info[node].isRightThread && info[prior.value].rightChild.None? then
      info[prior.value := info[prior.value].(isRightThread := true, rightChild := Some(node))]
    else info
  }

  /** SelfThreadify applied to the nodes of `s` in turn; also returns the last node visited. */
  function ThreadSeq(info: seq<BinaryInfo>, prior: Option<nat>, s: seq<nat>): (r: (seq<BinaryInfo>, Option<nat>))
    requires IdsBelow(s, |info|) && PriorIn(prior, |info|)
    ensures |r.0| == |info| && PriorIn(r.1, |info|)
    ensures r.1 == if |s| == 0 then prior else Some(s[|s| - 1])
    decreases |s|
  {
    if |s| == 0 then (info, prior)
    else
      var r1 := ThreadSeq(info, prior, s[..|s| - 1]);
      (SelfThreadify(r1.0, s[|s| - 1], r1.1), Some(s[|s| - 1]))
  }

  /** The public Threadify: the fold over the whole order, then a right-thread flag on the last node except in post-order. */
  function Threadified(info: seq<BinaryInfo>, t: Tree, order: TraversalOrder): (r: seq<BinaryInfo>)
    requires t.Node? && IdsBelow(Order(t, order), |info|)
    ensures |r| == |info|
  {
    var s := Order(t, order);
    var r1 := ThreadSeq(info, None, s);
    if order != PostOrder then r1.0[s[|s| - 1] := r1.0[s[|s| - 1]].(isRightThread := true)] else r1.0
  }

  lemma {:induction false} ThreadSeqAppend(info: seq<BinaryInfo>, prior: Option<nat>, a: seq<nat>, b: seq<nat>)
    requires IdsBelow(a, |info|) && IdsBelow(b, |info|) && PriorIn(prior, |info|)
    ensures IdsBelow(a + b, |info|)
    ensures var ra := ThreadSeq(info, prior, a);
      ThreadSeq(info, prior, a + b) == ThreadSeq(ra.0, ra.1, b)
    decreases |b|
  {
    if |b| > 0 {
      var ra := ThreadSeq(info, prior, a);
      assert (a + b)[..|a + b| - 1] == a + b[..|b| - 1];
      ThreadSeqAppend(info, prior, a, b[..|b| - 1]);
      assert (a + b)[|a + b| - 1] == b[|b| - 1];
    } else {
      assert a + b == a;
    }
  }

  /** Folding over one node is one visit. */
  lemma ThreadSeqOne(info: seq<BinaryInfo>, prior: Option<nat>, x: nat)
    requires x < |info| && PriorIn(prior, |info|)
    ensures IdsBelow([x], |info|)
    ensures ThreadSeq(info, prior, [x]) == (SelfThreadify(info, x, prior), Some(x))
  {
    assert [x][..0] == [];
  }

  /** Extending the fold by one node is one more visit. */
  lemma FoldVisit(info: seq<BinaryInfo>, prior: Option<nat>, done: seq<nat>, x: nat)
    requires IdsBelow(done, |info|) && x < |info| && PriorIn(prior, |info|)
    ensures IdsBelow(done + [x], |info|)
    ensures var d := ThreadSeq(info, prior, done);
      ThreadSeq(info, prior, done + [x]) == (SelfThreadify(d.0, x, d.1), Some(x))
  {
    assert (done + [x])[..|done|] == done;
  }

  /** Threading never changes a parent or a child pointer: only absent pointers become threads. */
  lemma {:induction false} ThreadSeqKeepsChildren(info: seq<BinaryInfo>, prior: Option<nat>, s: seq<nat>)
    requires IdsBelow(s, |info|) && PriorIn(prior, |info|)
    ensures var r := ThreadSeq(info, prior, s).0;
      forall x | 0 <= x < |info| ::
        && r[x].parent == info[x].parent
        && r[x].RealLeft() == info[x].RealLeft()
        && r[x].RealRight() == info[x].RealRight()
    decreases |s|
  {
    if |s| > 0 {
      ThreadSeqKeepsChildren(info, prior, s[..|s| - 1]);
    }
  }

  /** The child pointers still spell `t` after any fold. */
  lemma FoldReal(info: seq<BinaryInfo>, prior: Option<nat>, s: seq<nat>, t: Tree)
    requires IdsBelow(s, |info|) && PriorIn(prior, |info|) && Real(info, t)
    ensures Real(ThreadSeq(info, prior, s).0, t)
  {
    ThreadSeqKeepsChildren(info, prior, s);
    RealFrame(info, ThreadSeq(info, prior, s).0, t);
  }

  lemma OrderBelow(info: seq<BinaryInfo>, t: Tree, order: TraversalOrder)
    requires Real(info, t)
    ensures IdsBelow(Order(t, order), |info|)
  {
    RealIdsIn(info, t);
    var s := Order(t, order);
    forall i | 0 <= i < |s|
      ensures s[i] < |info|
    {
      OrderAt(t, order, i);
    }
  }

  // ---------------------------------------------------------------------------
  // Closed form on a freshly built tree.

  /**
   * The record of the node at position `k` of the order after Threadify on a freshly built
   * tree: a missing left child becomes a thread to the previous node (a thread with a null
   * pointer for the first node), a missing right child a thread to the next node; the last
   * node keeps a null right pointer, flagged as a thread except in post-order.
   */
  function ThreadedNode(t: Tree, order: TraversalOrder, k: nat): BinaryInfo
    requires k < |Order(t, order)|
  {
    var s := Order(t, order);
    var sub := Find(t, s[k]);
    var hasLeft := sub.Node? && sub.left.Node?;
    var hasRight := sub.Node? && sub.right.Node?;
    BinaryInfo(
      ParentOf(t, s[k]),
      if hasLeft then Some(sub.left.id) else if k == 0 then None else Some(s[k - 1]),
      !hasLeft,
      if hasRight then Some(sub.right.id) else if k + 1 < |s| then Some(s[k + 1]) else None,
      !hasRight && (k + 1 < |s| || order != PostOrder))
  }

  /** Position `k` after the first `j` visits: final, final but for its right pointer, or untouched. */
  function Mid(info0: seq<BinaryInfo>, t: Tree, order: TraversalOrder, j: nat, k: nat): BinaryInfo
    requires k < |Order(t, order)| && IdsBelow(Order(t, order), |info0|)
  {
    var s := Order(t, order);
    if k >= j then info0[s[k]]
    else if k + 1 == j then
      ThreadedNode(t, order, k).(rightChild := info0[s[k]].rightChild, isRightThread := info0[s[k]].isRightThread)
    else ThreadedNode(t, order, k)
  }

  lemma FreshAtNode(info: seq<BinaryInfo>, t: Tree, x: nat)
    requires Fresh(info, t, None) && Distinct(t) && x in Ids(t)
    ensures Find(t, x).Node? && x < |info|
    ensures info[x] == FreshInfo(Find(t, x), ParentOf(t, x))
  {
    FreshAt(info, t, None, x);
    ParentOfIn(t, x);
  }

  /** The slots after the first `j` visits of a fold over the order of a freshly built tree. */
  predicate PrefixState(info0: seq<BinaryInfo>, t: Tree, order: TraversalOrder, j: nat, r: seq<BinaryInfo>)
    requires IdsBelow(Order(t, order), |info0|)
  {
    var s := Order(t, order);
    && |r| == |info0|
    && (forall x | 0 <= x < |info0| && x !in Ids(t) :: r[x] == info0[x])
    && (forall k {:trigger r[s[k]]} | 0 <= k < |s| :: r[s[k]] == Mid(info0, t, order, j, k))
  }

  /** The visit of position `j - 1` moves one position of the prefix state forward. */
  lemma StepAt(info0: seq<BinaryInfo>, t: Tree, order: TraversalOrder, s: seq<nat>, j: nat, X: seq<BinaryInfo>, k: nat)
    requires s == Order(t, order) && IdsBelow(s, |info0|) && NoDup(s) && |X| == |info0|
    requires 0 < j <= |s| && k < |s|
    requires Find(t, s[j - 1]).Node?
    requires X[s[j - 1]] == info0[s[j - 1]] == FreshInfo(Find(t, s[j - 1]), ParentOf(t, s[j - 1]))
    requires j >= 2 ==> Find(t, s[j - 2]).Node?
    requires j >= 2 ==> info0[s[j - 2]] == FreshInfo(Find(t, s[j - 2]), ParentOf(t, s[j - 2]))
    requires X[s[k]] == Mid(info0, t, order, j - 1, k)
    ensures var P := if j == 1 then None else Some(s[j - 2]);
      SelfThreadify(X, s[j - 1], P)[s[k]] == Mid(info0, t, order, j, k)
  {
    var P := if j == 1 then None else Some(s[j - 2]);
    if k == j - 1 {
      StepCur(info0, t, order, s, j - 1, X, P);
    } else if k == j - 2 {
      StepPrev(info0, t, order, s, j - 1, X);
    } else {
      StepOther(info0, t, order, s, j, X, k);
    }
  }

  lemma StepOther(info0: seq<BinaryInfo>, t: Tree, order: TraversalOrder, s: seq<nat>, j: nat, X: seq<BinaryInfo>, k: nat)
    requires s == Order(t, order) && IdsBelow(s, |info0|) && NoDup(s) && |X| == |info0|
    requires 0 < j <= |s| && k < |s| && k != j - 1 && k + 2 != j
    requires X[s[k]] == Mid(info0, t, order, j - 1, k)
    ensures var P := if j == 1 then None else Some(s[j - 2]);
      SelfThreadify(X, s[j - 1], P)[s[k]] == Mid(info0, t, order, j, k)
  {
    assert s[k] != s[j - 1];
    assert j >= 2 ==> s[k] != s[j - 2];
  }

  lemma StepCur(info0: seq<BinaryInfo>, t: Tree, order: TraversalOrder, s: seq<nat>, k: nat, X: seq<BinaryInfo>, P: Option<nat>)
    requires s == Order(t, order) && k < |s| && IdsBelow(s, |info0|) && |X| == |info0|
    requires P == if k == 0 then None else Some(s[k - 1])
    requires P != Some(s[k])
    requires Find(t, s[k]).Node?
    requires X[s[k]] == info0[s[k]] == FreshInfo(Find(t, s[k]), ParentOf(t, s[k]))
    ensures SelfThreadify(X, s[k], P)[s[k]] == Mid(info0, t, order, k + 1, k)
  {
    var X1 := ThreadLeft(X, s[k], P);
    assert SelfThreadify(X, s[k], P)[s[k]] == X1[s[k]];
  }

  lemma StepPrev(info0: seq<BinaryInfo>, t: Tree, order: TraversalOrder, s: seq<nat>, k: nat, X: seq<BinaryInfo>)
    requires s == Order(t, order) && 0 < k < |s| && IdsBelow(s, |info0|) && |X| == |info0|
    requires s[k - 1] != s[k]
    requires Find(t, s[k - 1]).Node? && Find(t, s[k]).Node?
    requires X[s[k]] == info0[s[k]] == FreshInfo(Find(t, s[k]), ParentOf(t, s[k]))
    requires info0[s[k - 1]] == FreshInfo(Find(t, s[k - 1]), ParentOf(t, s[k - 1]))
    requires X[s[k - 1]] == Mid(info0, t, order, k, k - 1)
    ensures SelfThreadify(X, s[k], Some(s[k - 1]))[s[k - 1]] == Mid(info0, t, order, k + 1, k - 1)
  {
    var X1 := ThreadLeft(X, s[k], Some(s[k - 1]));
    assert X1[s[k - 1]] == X[s[k - 1]];
    assert !X1[s[k]].isRightThread;
  }

  /** Before visit `j`, the node visited and the one before it still hold their fresh records. */
  lemma StepReady(info0: seq<BinaryInfo>, t: Tree, order: TraversalOrder, s: seq<nat>, j: nat, X: seq<BinaryInfo>)
    requires Fresh(info0, t, None) && Distinct(t)
    requires s == Order(t, order) && IdsBelow(s, |info0|)
    requires 0 < j <= |s|
    requires PrefixState(info0, t, order, j - 1, X)
    ensures s[j - 1] in Ids(t) && Find(t, s[j - 1]).Node?
    ensures X[s[j - 1]] == info0[s[j - 1]] == FreshInfo(Find(t, s[j - 1]), ParentOf(t, s[j - 1]))
    ensures j >= 2 ==> s[j - 2] in Ids(t) && Find(t, s[j - 2]).Node?
    ensures j >= 2 ==> info0[s[j - 2]] == FreshInfo(Find(t, s[j - 2]), ParentOf(t, s[j - 2]))
  {
    OrderAt(t, order, j - 1);
    FreshAtNode(info0, t, s[j - 1]);
    assert X[s[j - 1]] == Mid(info0, t, order, j - 1, j - 1);
    if j >= 2 {
      OrderAt(t, order, j - 2);
      FreshAtNode(info0, t, s[j - 2]);
    }
  }

  /** One more visit extends the prefix state by one position. */
  lemma StepAll(info0: seq<BinaryInfo>, t: Tree, order: TraversalOrder, s: seq<nat>, j: nat, X: seq<BinaryInfo>)
    requires Fresh(info0, t, None) && Distinct(t)
    requires s == Order(t, order) && IdsBelow(s, |info0|) && NoDup(s)
    requires 0 < j <= |s|
    requires PrefixState(info0, t, order, j - 1, X)
    ensures PrefixState(info0, t, order, j, SelfThreadify(X, s[j - 1], if j == 1 then None else Some(s[j - 2])))
  {
    StepReady(info0, t, order, s, j, X);
    StepOutside(info0, X, s[j - 1], if j == 1 then None else Some(s[j - 2]), Ids(t));
    forall k | 0 <= k < |s|
      ensures SelfThreadify(X, s[j - 1], if j == 1 then None else Some(s[j - 2]))[s[k]] == Mid(info0, t, order, j, k)
    {
      StepAt(info0, t, order, s, j, X, k);
    }
  }

  /** A visit changes only the visited node and the prior one, so slots outside the tree stay as they were. */
  lemma StepOutside(info0: seq<BinaryInfo>, X: seq<BinaryInfo>, x: nat, P: Option<nat>, ids: set<nat>)
    requires |X| == |info0| && x < |X| && PriorIn(P, |X|)
    requires x in ids && (P.Some? ==> P.value in ids)
    requires forall y | 0 <= y < |info0| && y !in ids :: X[y] == info0[y]
    ensures forall y | 0 <= y < |info0| && y !in ids :: SelfThreadify(X, x, P)[y] == info0[y]
  {
  }

  /** The last step of the fold over a prefix of `s`. */
  lemma ThreadSeqLast(info0: seq<BinaryInfo>, s: seq<nat>, j: nat)
    requires IdsBelow(s, |info0|) && 0 < j <= |s|
    ensures IdsBelow(s[..j], |info0|) && IdsBelow(s[..j - 1], |info0|)
    ensures ThreadSeq(info0, None, s[..j]).0
      == SelfThreadify(ThreadSeq(info0, None, s[..j - 1]).0, s[j - 1], if j == 1 then None else Some(s[j - 2]))
  {
    var a := s[..j];
    assert a[..j - 1] == s[..j - 1];
    FoldLast(info0, a);
  }

  /** The fold over a non-empty sequence ends with the visit of its last node. */
  lemma FoldLast(info0: seq<BinaryInfo>, a: seq<nat>)
    requires IdsBelow(a, |info0|) && |a| > 0
    ensures IdsBelow(a[..|a| - 1], |info0|)
    ensures var d := ThreadSeq(info0, None, a[..|a| - 1]);
      ThreadSeq(info0, None, a).0 == SelfThreadify(d.0, a[|a| - 1], d.1)
  {
  }

  lemma {:induction false} ThreadPrefix(info0: seq<BinaryInfo>, t: Tree, order: TraversalOrder, j: nat)
    requires Fresh(info0, t, None) && Distinct(t)
    requires IdsBelow(Order(t, order), |info0|) && NoDup(Order(t, order))
    requires j <= |Order(t, order)|
    ensures PrefixState(info0, t, order, j, ThreadSeq(info0, None, Order(t, order)[..j]).0)
  {
    var s := Order(t, order);
    if j > 0 {
      ThreadPrefix(info0, t, order, j - 1);
      ThreadSeqLast(info0, s, j);
      StepAll(info0, t, order, s, j, ThreadSeq(info0, None, s[..j - 1]).0);
    }
  }

  /** Threadify on a freshly built tree, node by node, in terms of the tree and its order. */
  lemma FreshThreaded(info0: seq<BinaryInfo>, t: Tree, order: TraversalOrder)
    requires Fresh(info0, t, None) && Distinct(t) && t.Node?
    ensures IdsBelow(Order(t, order), |info0|)
    ensures var s := Order(t, order); var r := Threadified(info0, t, order);
      && (forall x | 0 <= x < |info0| && x !in Ids(t) :: r[x] == info0[x])
      && (forall k {:trigger r[s[k]]} | 0 <= k < |s| :: r[s[k]] == ThreadedNode(t, order, k))
  {
    FreshIsRawAndReal(info0, t, None);
    OrderBelow(info0, t, order);
    var s := Order(t, order);
    ThreadAll(info0, t, order);
    var r1 := ThreadSeq(info0, None, s).0;
    FreshAtNode(info0, t, s[|s| - 1]);
    if order != PostOrder {
      LastHasNoRight(t, order);
      MarkLast(info0, t, order, s, r1);
    } else {
      PostUnmarked(info0, t, s, r1);
    }
  }

  /** The fold over the whole order reaches the final prefix state. */
  lemma ThreadAll(info0: seq<BinaryInfo>, t: Tree, order: TraversalOrder)
    requires Fresh(info0, t, None) && Distinct(t) && t.Node?
    requires IdsBelow(Order(t, order), |info0|)
    ensures |Order(t, order)| > 0 && NoDup(Order(t, order)) && Order(t, order)[|Order(t, order)| - 1] in Ids(t)
    ensures PrefixState(info0, t, order, |Order(t, order)|, ThreadSeq(info0, None, Order(t, order)).0)
  {
    var s := Order(t, order);
    OrderElems(t, order);
    OrderAt(t, order, |s| - 1);
    ThreadPrefix(info0, t, order, |s|);
    assert s[..|s|] == s;
  }

  /** In post-order nothing is marked after the fold: the last node is the root, which keeps its right pointer. */
  lemma PostUnmarked(info0: seq<BinaryInfo>, t: Tree, s: seq<nat>, r1: seq<BinaryInfo>)
    requires t.Node? && s == Order(t, PostOrder) && |s| > 0 && IdsBelow(s, |info0|)
    requires r1 == ThreadSeq(info0, None, s).0
    requires PrefixState(info0, t, PostOrder, |s|, r1)
    requires Find(t, s[|s| - 1]).Node?
    requires info0[s[|s| - 1]] == FreshInfo(Find(t, s[|s| - 1]), ParentOf(t, s[|s| - 1]))
    ensures var r := Threadified(info0, t, PostOrder);
      && (forall x | 0 <= x < |info0| && x !in Ids(t) :: r[x] == info0[x])
      && (forall k {:trigger r[s[k]]} | 0 <= k < |s| :: r[s[k]] == ThreadedNode(t, PostOrder, k))
  {
    assert Threadified(info0, t, PostOrder) == r1;
    forall k | 0 <= k < |s|
      ensures r1[s[k]] == ThreadedNode(t, PostOrder, k)
    {
      assert r1[s[k]] == Mid(info0, t, PostOrder, |s|, k);
    }
  }

  lemma MarkLast(info0: seq<BinaryInfo>, t: Tree, order: TraversalOrder, s: seq<nat>, r1: seq<BinaryInfo>)
    requires t.Node? && order != PostOrder
    requires s == Order(t, order) && |s| > 0 && IdsBelow(s, |info0|) && NoDup(s)
    requires r1 == ThreadSeq(info0, None, s).0
    requires PrefixState(info0, t, order, |s|, r1)
    requires Find(t, s[|s| - 1]).Node? && Find(t, s[|s| - 1]).right.Nil?
    requires info0[s[|s| - 1]] == FreshInfo(Find(t, s[|s| - 1]), ParentOf(t, s[|s| - 1]))
    ensures var r := Threadified(info0, t, order);
      && (forall x | 0 <= x < |info0| && x !in Ids(t) :: r[x] == info0[x])
      && (forall k {:trigger r[s[k]]} | 0 <= k < |s| :: r[s[k]] == ThreadedNode(t, order, k))
  {
    var last := |s| - 1;
    var r := Threadified(info0, t, order);
    assert r == r1[s[last] := r1[s[last]].(isRightThread := true)];
    assert s[last] in Ids(t) by {
      OrderElems(t, order);
    }
    forall k | 0 <= k < |s|
      ensures r[s[k]] == ThreadedNode(t, order, k)
    {
      assert r1[s[k]] == Mid(info0, t, order, |s|, k);
      if k != last {
        assert s[k] != s[last];
      }
    }
  }

  // ---------------------------------------------------------------------------
  // Unthreadify after Threadify.

  /**
   * Unthreadify after Threadify on a freshly built tree gives every node back its parent and
   * child pointers, and clears every thread flag except two that sit on null pointers: the
   * left flag of the first node when it has no left child, and (pre-order and in-order) the
   * right flag of the last node.
   */
  lemma UnthreadRoundTrip(info0: seq<BinaryInfo>, t: Tree, order: TraversalOrder)
    requires Fresh(info0, t, None) && Distinct(t) && t.Node?
    requires IdsBelow(Order(t, order), |info0|)
    ensures var s := Order(t, order); var r := Unthreaded(Threadified(info0, t, order), Ids(t));
      && (forall x | 0 <= x < |info0| && x !in Ids(t) :: r[x] == info0[x])
      && (forall k {:trigger r[s[k]]} | 0 <= k < |s| ::
        r[s[k]] == info0[s[k]].(
          isLeftThread := k == 0 && info0[s[k]].leftChild.None?,
          isRightThread := k + 1 == |s| && order != PostOrder))
  {
    var s := Order(t, order);
    FreshThreaded(info0, t, order);
    var th := Threadified(info0, t, order);
    var r := Unthreaded(th, Ids(t));
    forall k | 0 <= k < |s|
      ensures r[s[k]] == info0[s[k]].(
          isLeftThread := k == 0 && info0[s[k]].leftChild.None?,
          isRightThread := k + 1 == |s| && order != PostOrder)
    {
      UnthreadPosition(info0, t, order, s, th, k);
    }
    forall x | 0 <= x < |info0| && x !in Ids(t)
      ensures r[x] == info0[x]
    {
      assert r[x] == th[x];
    }
  }

  lemma UnthreadPosition(info0: seq<BinaryInfo>, t: Tree, order: TraversalOrder, s: seq<nat>, th: seq<BinaryInfo>, k: nat)
    requires Fresh(info0, t, None) && Distinct(t) && t.Node?
    requires s == Order(t, order) && IdsBelow(s, |info0|) && k < |s|
    requires th == Threadified(info0, t, order) && th[s[k]] == ThreadedNode(t, order, k)
    ensures Unthreaded(th, Ids(t))[s[k]] == info0[s[k]].(
      isLeftThread := k == 0 && info0[s[k]].leftChild.None?,
      isRightThread := k + 1 == |s| && order != PostOrder)
  {
    var x := s[k];
    OrderElems(t, order);
    assert x in Ids(t);
    assert Unthreaded(th, Ids(t))[x] == UnthreadNode(th[x]);
    FreshAtNode(info0, t, x);
    if k + 1 == |s| {
      if order != PostOrder {
        LastHasNoRight(t, order);
      } else {
        assert x == t.id;
      }
    }
    UnthreadAt(info0, t, order, s, k, th[x]);
  }

  lemma UnthreadAt(info0: seq<BinaryInfo>, t: Tree, order: TraversalOrder, s: seq<nat>, k: nat, b: BinaryInfo)
    requires s == Order(t, order) && k < |s| && s[k] < |info0|
    requires Find(t, s[k]).Node?
    requires info0[s[k]] == FreshInfo(Find(t, s[k]), ParentOf(t, s[k]))
    requires b == ThreadedNode(t, order, k)
    requires k + 1 == |s| ==> Find(t, s[k]).right.Nil? || order == PostOrder
    ensures UnthreadNode(b) == info0[s[k]].(
      isLeftThread := k == 0 && info0[s[k]].leftChild.None?,
      isRightThread := k + 1 == |s| && order != PostOrder)
  {
  }

  /** The child pointers still spell `t` after the public Threadify, terminal flag included. */
  lemma ThreadifiedReal(info: seq<BinaryInfo>, t: Tree, order: TraversalOrder)
    requires Real(info, t) && Distinct(t) && t.Node?
    ensures IdsBelow(Order(t, order), |info|)
    ensures Real(Threadified(info, t, order), t)
  {
    OrderBelow(info, t, order);
    var s := Order(t, order);
    FoldReal(info, None, s, t);
    if order != PostOrder {
      LastHasNoRight(t, order);
      MarkedReal(ThreadSeq(info, None, s).0, t, s[|s| - 1]);
    }
  }

  /** Flagging the right pointer of a node without a right child as a thread keeps the tree. */
  lemma MarkedReal(r1: seq<BinaryInfo>, t: Tree, x: nat)
    requires Real(r1, t) && Distinct(t) && x in Ids(t) && Find(t, x).Node? && Find(t, x).right.Nil?
    ensures x < |r1| && Real(r1[x := r1[x].(isRightThread := true)], t)
  {
    RealAt(r1, t, x);
    RealFrame(r1, r1[x := r1[x].(isRightThread := true)], t);
  }
}
