/**
 * What BuildBinaryTree computes: each node's out-edge targets become its left and right
 * children (an only child on the left, two children ordered by the caller's decider), and
 * the parent / child pointers it stores spell one binary tree holding every node.
 */
module BuildTree {
  import opened Wrappers
  import opened Trees
  import opened TreeRoot
  import opened BinaryInfos

  /** The targets of the out-edges of `v`, in edge order. */
  function Children(edges: seq<Edge>, v: nat): (cs: seq<nat>)
    ensures forall c :: c in cs <==> exists i | 0 <= i < |edges| :: edges[i].0 == v && edges[i].1 == c
  {
    if |edges| == 0 then []
    else
      var init := edges[..|edges| - 1];
      var e := edges[|edges| - 1];
      var cs0 := Children(init, v);
      assert forall i | 0 <= i < |init| :: init[i] == edges[i];
      if e.0 == v then cs0 + [e.1] else cs0
  }

  /** When no two edges share a target, no node is listed twice among a node's children. */
  lemma {:induction false} ChildrenNoDup(edges: seq<Edge>, v: nat)
    requires TargetsDistinct(edges)
    ensures NoDup(Children(edges, v))
  {
    if |edges| > 0 {
      var init := edges[..|edges| - 1];
      var e := edges[|edges| - 1];
      assert forall i | 0 <= i < |init| :: init[i] == edges[i];
      ChildrenNoDup(init, v);
      var cs0 := Children(init, v);
      if e.0 == v {
        forall c | c in cs0
          ensures c !in [e.1]
        {
          var i :| 0 <= i < |init| && init[i].0 == v && init[i].1 == c;
          assert edges[i].1 != edges[|edges| - 1].1;
        }
        NoDupConcat(cs0, [e.1]);
      }
    }
  }

  /**
   * The (left, right) children BuildBinaryTree gives `v`: an only child goes left; of two,
   * the first goes left when the decider returns a negative number, otherwise the second.
   * A node with more than two children gets none (BuildBinaryTree has already failed then).
   */
  function Place(edges: seq<Edge>, decide: (nat, nat, nat) -> int, v: nat): (lr: (Option<nat>, Option<nat>))
    ensures var cs := Children(edges, v);
      && (lr.0.Some? ==> lr.0.value in cs)
      && (lr.1.Some? ==> lr.1.value in cs && lr.0.Some? && (NoDup(cs) ==> lr.0 != lr.1))
      && (|cs| <= 2 && NoDup(cs) ==> forall c | c in cs :: Some(c) == lr.0 || Some(c) == lr.1)
      && (|cs| == 2 && NoDup(cs) ==> lr.1.Some?)
  {
    var cs := Children(edges, v);
    if |cs| == 1 then (Some(cs[0]), None)
    else if |cs| == 2 then
      if decide(cs[0], cs[1], v) < 0 then (Some(cs[0]), Some(cs[1])) else (Some(cs[1]), Some(cs[0]))
    else (None, None)
  }

  /** The first node, in node order from `from`, with more than two out-edges, and that count. */
  function FirstWide(n: nat, edges: seq<Edge>, from: nat): (w: Option<(nat, nat)>)
    ensures w.None? <==> forall v | from <= v < n :: |Children(edges, v)| <= 2
    ensures w.Some? ==>
      && from <= w.value.0 < n
      && w.value.1 == |Children(edges, w.value.0)| > 2
      && forall v | from <= v < w.value.0 :: |Children(edges, v)| <= 2
    decreases n - from
  {
    if from >= n then None
    else if |Children(edges, from)| > 2 then
      assert !(|Children(edges, from)| <= 2);
      Some((from, |Children(edges, from)|))
    else FirstWide(n, edges, from + 1)
  }

  /** The record BuildBinaryTree stores for node `v` whose parent is `p[v]`. */
  function BuiltInfo(p: seq<Option<nat>>, edges: seq<Edge>, decide: (nat, nat, nat) -> int, v: nat): BinaryInfo
    requires v < |p|
  {
    var lr := Place(edges, decide, v);
    BinaryInfo(p[v], lr.0, false, lr.1, false)
  }

  /** GetTreeRoot's outcome, then the first node with more than two children; otherwise the root. */
  ghost function BuildSpec(n: nat, edges: seq<Edge>): Result<nat, TreeError>
    requires EdgesIn(n, edges)
  {
    var root := TreeRootSpec(n, edges);
    if root.Failure? then root
    else
      match FirstWide(n, edges, 0)
      case Some(w) => Failure(TooManyChildren(w.0, w.1))
      case None => root
  }

  // ---------------------------------------------------------------------------
  // The tree spelled by parent / child pointers.

  /** Ranks that grow from every node to its children (the order nodes were enqueued). */
  predicate RankOk(info: seq<BinaryInfo>, rank: seq<nat>) {
    && |rank| == |info|
    && forall v | 0 <= v < |info| ::
      && rank[v] < |info|
      && (info[v].leftChild.Some? ==> info[v].leftChild.value < |info| && rank[info[v].leftChild.value] > rank[v])
      && (info[v].rightChild.Some? ==> info[v].rightChild.value < |info| && rank[info[v].rightChild.value] > rank[v])
  }

  /** No threads; two distinct children, or a left one only; child and parent pointers agree. */
  predicate Linked(info: seq<BinaryInfo>) {
    forall v | 0 <= v < |info| ::
      && !info[v].isLeftThread && !info[v].isRightThread
      && (info[v].rightChild.Some? ==> info[v].leftChild.Some? && info[v].leftChild != info[v].rightChild)
      && (info[v].leftChild.Some? && info[v].leftChild.value < |info| ==> info[info[v].leftChild.value].parent == Some(v))
      && (info[v].rightChild.Some? && info[v].rightChild.value < |info| ==> info[info[v].rightChild.value].parent == Some(v))
      && (info[v].parent.Some? ==>
        var q := info[v].parent.value;
        q < |info| && (info[q].leftChild == Some(v) || info[q].rightChild == Some(v)))
  }

  function TreeAt(info: seq<BinaryInfo>, rank: seq<nat>, v: nat): (t: Tree)
    requires RankOk(info, rank) && v < |info|
    ensures t.Node? && t.id == v
    ensures RootId(t.left) == info[v].leftChild && RootId(t.right) == info[v].rightChild
    decreases |info| - rank[v]
  {
    Node(v, SubAt(info, rank, v, info[v].leftChild), SubAt(info, rank, v, info[v].rightChild))
  }

  function SubAt(info: seq<BinaryInfo>, rank: seq<nat>, v: nat, c: Option<nat>): (t: Tree)
    requires RankOk(info, rank) && v < |info|
    requires c.Some? ==> c.value < |info| && rank[c.value] > rank[v]
    ensures RootId(t) == c
    decreases |info| - rank[v], 0
  {
    if c.None? then Nil else TreeAt(info, rank, c.value)
  }

  lemma {:induction false} TreeAtFresh(info: seq<BinaryInfo>, rank: seq<nat>, v: nat)
    requires RankOk(info, rank) && Linked(info) && v < |info|
    ensures Fresh(info, TreeAt(info, rank, v), info[v].parent)
    ensures LeftBiased(TreeAt(info, rank, v))
    decreases |info| - rank[v]
  {
    var b := info[v];
    if b.leftChild.Some? {
      TreeAtFresh(info, rank, b.leftChild.value);
    }
    if b.rightChild.Some? {
      TreeAtFresh(info, rank, b.rightChild.value);
    }
  }

  /** A node of the subtree at `v` is `v` or has its parent in that subtree, and ranks no lower. */
  lemma {:induction false} TreeAtBelow(info: seq<BinaryInfo>, rank: seq<nat>, v: nat, x: nat)
    requires RankOk(info, rank) && Linked(info) && v < |info|
    requires x in Ids(TreeAt(info, rank, v))
    ensures x < |info| && rank[x] >= rank[v]
    ensures x == v || (info[x].parent.Some? && info[x].parent.value in Ids(TreeAt(info, rank, v)))
    decreases |info| - rank[v]
  {
    var t := TreeAt(info, rank, v);
    if x != v {
      var b := info[v];
      if x in Ids(t.left) {
        TreeAtBelow(info, rank, b.leftChild.value, x);
      } else {
        TreeAtBelow(info, rank, b.rightChild.value, x);
      }
    }
  }

  /** Siblings' subtrees share no node. */
  lemma {:induction false} SiblingsDisjoint(info: seq<BinaryInfo>, rank: seq<nat>, v: nat, l: nat, r: nat, x: nat)
    requires RankOk(info, rank) && Linked(info) && v < |info| && l < |info| && r < |info| && x < |info|
    requires l != r && info[l].parent == Some(v) && info[r].parent == Some(v)
    ensures !(x in Ids(TreeAt(info, rank, l)) && x in Ids(TreeAt(info, rank, r)))
    decreases rank[x]
  {
    if x in Ids(TreeAt(info, rank, l)) && x in Ids(TreeAt(info, rank, r)) {
      TreeAtBelow(info, rank, l, x);
      TreeAtBelow(info, rank, r, x);
      if x == l {
        TreeAtBelow(info, rank, r, v);
      } else if x == r {
        TreeAtBelow(info, rank, l, v);
      } else {
        SiblingsDisjoint(info, rank, v, l, r, info[x].parent.value);
      }
    }
  }

  lemma {:induction false} TreeAtDistinct(info: seq<BinaryInfo>, rank: seq<nat>, v: nat)
    requires RankOk(info, rank) && Linked(info) && v < |info|
    ensures Distinct(TreeAt(info, rank, v))
    decreases |info| - rank[v]
  {
    var t := TreeAt(info, rank, v);
    var b := info[v];
    if b.leftChild.Some? {
      TreeAtDistinct(info, rank, b.leftChild.value);
      assert t.left == SubAt(info, rank, v, b.leftChild) == TreeAt(info, rank, b.leftChild.value);
      if v in Ids(t.left) {
        TreeAtBelow(info, rank, b.leftChild.value, v);
      }
    }
    if b.rightChild.Some? {
      TreeAtDistinct(info, rank, b.rightChild.value);
      assert t.right == SubAt(info, rank, v, b.rightChild) == TreeAt(info, rank, b.rightChild.value);
      if v in Ids(t.right) {
        TreeAtBelow(info, rank, b.rightChild.value, v);
      }
      forall x | x in Ids(t.left)
        ensures x !in Ids(t.right)
      {
        TreeAtBelow(info, rank, b.leftChild.value, x);
        SiblingsDisjoint(info, rank, v, b.leftChild.value, b.rightChild.value, x);
      }
    }
  }

  lemma {:induction false} TreeAtNested(info: seq<BinaryInfo>, rank: seq<nat>, v: nat, y: nat)
    requires RankOk(info, rank) && v < |info|
    requires y in Ids(TreeAt(info, rank, v))
    ensures y < |info| && Ids(TreeAt(info, rank, y)) <= Ids(TreeAt(info, rank, v))
    decreases |info| - rank[v]
  {
    var t := TreeAt(info, rank, v);
    var b := info[v];
    if y != v {
      if y in Ids(t.left) {
        TreeAtNested(info, rank, b.leftChild.value, y);
      } else {
        TreeAtNested(info, rank, b.rightChild.value, y);
      }
    }
  }

  /** Every node whose parent chain reaches `root` is in the tree at `root`. */
  lemma {:induction false} TreeAtCovers(info: seq<BinaryInfo>, rank: seq<nat>, p: seq<Option<nat>>, root: nat, x: nat, k: nat)
    requires RankOk(info, rank) && Linked(info) && root < |info| && x < |info|
    requires |p| == |info| && ParentsIn(p) && forall v | 0 <= v < |info| :: info[v].parent == p[v]
    requires Up(p, x, k) == root
    ensures x in Ids(TreeAt(info, rank, root))
    decreases k
  {
    if k > 0 && p[x].Some? {
      var q := p[x].value;
      TreeAtCovers(info, rank, p, root, q, k - 1);
      TreeAtNested(info, rank, root, q);
    }
  }

  // ---------------------------------------------------------------------------
  // The breadth-first walk of BuildBinaryTree.

  /** The slots BuildBinaryTree leaves behind on a graph whose edges the parent scan accepts. */
  function Built(n: nat, edges: seq<Edge>, decide: (nat, nat, nat) -> int): (info: seq<BinaryInfo>)
    requires EdgesIn(n, edges) && ParentScan(n, edges).Success?
    ensures |info| == n
  {
    var p := ParentScan(n, edges).value;
    seq(n, v requires 0 <= v < n => BuiltInfo(p, edges, decide, v))
  }

  /** `c` is a child of `v` exactly when the parent scan records `v` as the parent of `c`. */
  lemma ChildOf(n: nat, edges: seq<Edge>, v: nat, c: nat)
    requires EdgesIn(n, edges) && ParentScan(n, edges).Success?
    ensures c in Children(edges, v) <==> c < n && ParentScan(n, edges).value[c] == Some(v)
  {
    ParentScanSpec(n, edges);
    var p := ParentScan(n, edges).value;
    if c < n && p[c] == Some(v) {
      assert HasInEdge(edges, c);
      var i :| 0 <= i < |edges| && edges[i].1 == c;
      assert p[edges[i].1] == Some(edges[i].0);
    }
  }

  /**
   * On a tree with no node of more than two children, the built slots are linked: child
   * pointers are distinct, agree with the parent pointers, and an only child is on the left.
   */
  lemma BuiltLinked(n: nat, edges: seq<Edge>, decide: (nat, nat, nat) -> int)
    requires EdgesIn(n, edges) && BuildSpec(n, edges).Success?
    ensures ParentScan(n, edges).Success?
    ensures Linked(Built(n, edges, decide))
  {
    ParentScanSpec(n, edges);
    var info := Built(n, edges, decide);
    forall v | 0 <= v < n
      ensures && (info[v].rightChild.Some? ==> info[v].leftChild.Some? && info[v].leftChild != info[v].rightChild)
              && (info[v].leftChild.Some? && info[v].leftChild.value < n ==> info[info[v].leftChild.value].parent == Some(v))
              && (info[v].rightChild.Some? && info[v].rightChild.value < n ==> info[info[v].rightChild.value].parent == Some(v))
              && (info[v].parent.Some? ==>
                   var q := info[v].parent.value;
                   q < n && (info[q].leftChild == Some(v) || info[q].rightChild == Some(v)))
    {
      BuiltChildrenLinked(n, edges, decide, info, v);
      BuiltParentLinked(n, edges, decide, info, v);
    }
  }

  /** The children placed under `v` are distinct, an only one on the left, and name `v` as their parent. */
  lemma BuiltChildrenLinked(n: nat, edges: seq<Edge>, decide: (nat, nat, nat) -> int, info: seq<BinaryInfo>, v: nat)
    requires EdgesIn(n, edges) && TargetsDistinct(edges) && ParentScan(n, edges).Success? && v < n
    requires info == Built(n, edges, decide)
    ensures && (info[v].rightChild.Some? ==> info[v].leftChild.Some? && info[v].leftChild != info[v].rightChild)
      && (info[v].leftChild.Some? && info[v].leftChild.value < n ==> info[info[v].leftChild.value].parent == Some(v))
      && (info[v].rightChild.Some? && info[v].rightChild.value < n ==> info[info[v].rightChild.value].parent == Some(v))
  {
    ChildrenNoDup(edges, v);
    var lr := Place(edges, decide, v);
    if lr.0.Some? {
      ChildOf(n, edges, v, lr.0.value);
    }
    if lr.1.Some? {
      ChildOf(n, edges, v, lr.1.value);
    }
  }

  /** The parent recorded for `v` has `v` as one of its two placed children. */
  lemma BuiltParentLinked(n: nat, edges: seq<Edge>, decide: (nat, nat, nat) -> int, info: seq<BinaryInfo>, v: nat)
    requires EdgesIn(n, edges) && BuildSpec(n, edges).Success? && ParentScan(n, edges).Success? && v < n
    requires info == Built(n, edges, decide)
    ensures info[v].parent.Some? ==>
        var q := info[v].parent.value;
        q < n && (info[q].leftChild == Some(v) || info[q].rightChild == Some(v))
  {
    ParentScanSpec(n, edges);
    var p := ParentScan(n, edges).value;
    if p[v].Some? {
      var q := p[v].value;
      ChildOf(n, edges, q, v);
      ChildrenNoDup(edges, q);
      assert |Children(edges, q)| <= 2;
    }
  }

  /** The nodes a dequeued node puts on the queue, in order: its left child, then its right one. */
  function Enqueued(lr: (Option<nat>, Option<nat>)): (added: seq<nat>)
    ensures forall c :: c in added <==> Some(c) == lr.0 || Some(c) == lr.1
  {
    (if lr.0.Some? then [lr.0.value] else []) + (if lr.1.Some? then [lr.1.value] else [])
  }

  /** `x` was put on the queue: it is the entry of `seen` at position `rank[x]`. */
  predicate InSeen(seen: seq<nat>, rank: seq<nat>, x: nat) {
    x < |rank| && rank[x] < |seen| && seen[rank[x]] == x
  }

  function Unseen(n: nat, seen: seq<nat>): set<nat> {
    set x | 0 <= x < n && x !in seen
  }

  /**
   * The state of the breadth-first walk. `seen` lists the nodes ever enqueued, in order;
   * the first `done` have been dequeued and the rest form the queue; `rank` gives each
   * enqueued node its position. Every enqueued node other than the root was enqueued by its
   * parent, the children of every dequeued node are enqueued, dequeued nodes hold their
   * final slots and queued ones a fresh record naming their parent.
   */
  ghost predicate Bfs(n: nat, edges: seq<Edge>, decide: (nat, nat, nat) -> int, p: seq<Option<nat>>, root: nat,
    ud: seq<BinaryInfo>, seen: seq<nat>, done: nat, rank: seq<nat>)
  {
    && |ud| == n && |p| == n && |rank| == n && ParentsIn(p)
    && root < n && p[root].None?
    && done <= |seen| && |seen| > 0 && seen[0] == root
    && (forall i | 0 <= i < |seen| :: seen[i] < n && rank[seen[i]] == i)
    && (forall i | 0 < i < |seen| ::
          && p[seen[i]].Some?
          && rank[p[seen[i]].value] < done && rank[p[seen[i]].value] < i
          && seen[rank[p[seen[i]].value]] == p[seen[i]].value)
    && (forall x | 0 <= x < n && p[x].Some? && InSeen(seen, rank, p[x].value) && rank[p[x].value] < done ::
          InSeen(seen, rank, x))
    && (forall i | 0 <= i < done :: ud[seen[i]] == BuiltInfo(p, edges, decide, seen[i]))
    && (forall i | done <= i < |seen| :: ud[seen[i]] == BinaryInfo(p[seen[i]], None, false, None, false))
  }

  /** What BuildBinaryTree relies on once GetTreeRoot and the wide-node check have passed. */
  ghost predicate Accepted(n: nat, edges: seq<Edge>, p: seq<Option<nat>>) {
    && EdgesIn(n, edges) && ParentScan(n, edges).Success? && p == ParentScan(n, edges).value
    && TargetsDistinct(edges) && FirstWide(n, edges, 0).None?
  }

  lemma BfsStart(n: nat, edges: seq<Edge>, decide: (nat, nat, nat) -> int, p: seq<Option<nat>>, root: nat,
    ud: seq<BinaryInfo>)
    requires Accepted(n, edges, p) && |ud| == n && root < n && p[root].None?
    ensures Bfs(n, edges, decide, p, root, ud[root := BinaryInfo(None, None, false, None, false)], [root], 0, seq(n, _ => 0))
  {
  }

  /** The children of a dequeued node were never enqueued before. */
  lemma ChildrenUnseen(n: nat, edges: seq<Edge>, decide: (nat, nat, nat) -> int, p: seq<Option<nat>>, root: nat,
    ud: seq<BinaryInfo>, seen: seq<nat>, done: nat, rank: seq<nat>)
    requires Accepted(n, edges, p) && Bfs(n, edges, decide, p, root, ud, seen, done, rank) && done < |seen|
    ensures forall c | c in Children(edges, seen[done]) :: c < n && p[c] == Some(seen[done]) && c !in seen
  {
    var node := seen[done];
    forall c | c in Children(edges, node)
      ensures c < n && p[c] == Some(node) && c !in seen
    {
      ChildOf(n, edges, node, c);
    }
  }

  /** The slots after visiting `node`: it gets its built record, each placed child a fresh one naming it; nothing else changes. */
  ghost predicate SlotsLinked(n: nat, edges: seq<Edge>, decide: (nat, nat, nat) -> int, p: seq<Option<nat>>,
    ud: seq<BinaryInfo>, ud': seq<BinaryInfo>, node: nat)
  {
    var added := Enqueued(Place(edges, decide, node));
    && |ud| == n && |ud'| == n && |p| == n && node < n
    && ud'[node] == BuiltInfo(p, edges, decide, node)
    && (forall c | c in added :: c < n && ud'[c] == BinaryInfo(Some(node), None, false, None, false))
    && (forall x | 0 <= x < n && x != node && x !in added :: ud'[x] == ud[x])
  }

  /** Linking two children under `node` updates exactly the three slots involved. */
  lemma PairLinked(n: nat, edges: seq<Edge>, decide: (nat, nat, nat) -> int, p: seq<Option<nat>>,
    ud: seq<BinaryInfo>, ud': seq<BinaryInfo>, node: nat, left: nat, right: nat)
    requires |ud| == n && |p| == n && node < n && left < n && right < n
    requires left != node && right != node && left != right
    requires ud[node] == BinaryInfo(p[node], None, false, None, false)
    requires Place(edges, decide, node) == (Some(left), Some(right))
    requires ud' == ud[node := ud[node].(leftChild := Some(left))]
      [left := BinaryInfo(Some(node), None, false, None, false)]
      [node := ud[node].(leftChild := Some(left), rightChild := Some(right))]
      [right := BinaryInfo(Some(node), None, false, None, false)]
    ensures SlotsLinked(n, edges, decide, p, ud, ud', node)
  {
    assert Enqueued(Place(edges, decide, node)) == [left, right];
  }

  /** `rank'` gives the nodes of `added` the positions `base`, `base + 1`, ... and keeps every other rank. */
  ghost predicate RanksShifted(rank: seq<nat>, rank': seq<nat>, added: seq<nat>, base: nat) {
    && |rank'| == |rank|
    && (forall k | 0 <= k < |added| :: added[k] < |rank| && rank'[added[k]] == base + k)
    && (forall x | 0 <= x < |rank| && x !in added :: rank'[x] == rank[x])
  }

  /** How one iteration changes the slots and ranks. */
  ghost predicate Stepped(n: nat, edges: seq<Edge>, decide: (nat, nat, nat) -> int, p: seq<Option<nat>>,
    ud: seq<BinaryInfo>, seen: seq<nat>, done: nat, rank: seq<nat>, ud': seq<BinaryInfo>, rank': seq<nat>)
    requires done < |seen|
  {
    && |rank| == n
    && SlotsLinked(n, edges, decide, p, ud, ud', seen[done])
    && RanksShifted(rank, rank', Enqueued(Place(edges, decide, seen[done])), |seen|)
  }

  /** The placed children of a dequeued node: distinct, below `n`, children of it and never enqueued before. */
  lemma AddedFresh(n: nat, edges: seq<Edge>, decide: (nat, nat, nat) -> int, p: seq<Option<nat>>, root: nat,
    ud: seq<BinaryInfo>, seen: seq<nat>, done: nat, rank: seq<nat>)
    requires Accepted(n, edges, p) && Bfs(n, edges, decide, p, root, ud, seen, done, rank) && done < |seen|
    ensures var added := Enqueued(Place(edges, decide, seen[done]));
      && NoDup(added)
      && forall c | c in added :: c < n && p[c] == Some(seen[done]) && c !in seen && c != seen[done]
  {
    ChildrenUnseen(n, edges, decide, p, root, ud, seen, done, rank);
    ChildrenNoDup(edges, seen[done]);
  }

  lemma StepSeen(n: nat, edges: seq<Edge>, decide: (nat, nat, nat) -> int, p: seq<Option<nat>>, root: nat,
    ud: seq<BinaryInfo>, seen: seq<nat>, done: nat, rank: seq<nat>, ud': seq<BinaryInfo>, rank': seq<nat>)
    requires Accepted(n, edges, p) && Bfs(n, edges, decide, p, root, ud, seen, done, rank) && done < |seen|
    requires Stepped(n, edges, decide, p, ud, seen, done, rank, ud', rank')
    ensures var seen' := seen + Enqueued(Place(edges, decide, seen[done]));
      forall i | 0 <= i < |seen'| :: seen'[i] < n && rank'[seen'[i]] == i
  {
    var added := Enqueued(Place(edges, decide, seen[done]));
    var seen' := seen + added;
    AddedFresh(n, edges, decide, p, root, ud, seen, done, rank);
    forall i | 0 <= i < |seen'|
      ensures seen'[i] < n && rank'[seen'[i]] == i
    {
      if i >= |seen| {
        assert seen'[i] == added[i - |seen|];
      } else {
        assert seen'[i] == seen[i] && seen[i] !in added;
      }
    }
  }

  lemma StepParents(n: nat, edges: seq<Edge>, decide: (nat, nat, nat) -> int, p: seq<Option<nat>>, root: nat,
    ud: seq<BinaryInfo>, seen: seq<nat>, done: nat, rank: seq<nat>, ud': seq<BinaryInfo>, rank': seq<nat>)
    requires Accepted(n, edges, p) && Bfs(n, edges, decide, p, root, ud, seen, done, rank) && done < |seen|
    requires Stepped(n, edges, decide, p, ud, seen, done, rank, ud', rank')
    ensures var seen' := seen + Enqueued(Place(edges, decide, seen[done]));
      forall i | 0 < i < |seen'| ::
        && p[seen'[i]].Some?
        && rank'[p[seen'[i]].value] < done + 1 && rank'[p[seen'[i]].value] < i
        && seen'[rank'[p[seen'[i]].value]] == p[seen'[i]].value
  {
    var node := seen[done];
    var added := Enqueued(Place(edges, decide, node));
    var seen' := seen + added;
    AddedFresh(n, edges, decide, p, root, ud, seen, done, rank);
    forall i | 0 < i < |seen'|
      ensures && p[seen'[i]].Some?
              && rank'[p[seen'[i]].value] < done + 1 && rank'[p[seen'[i]].value] < i
              && seen'[rank'[p[seen'[i]].value]] == p[seen'[i]].value
    {
      if i >= |seen| {
        assert seen'[i] == added[i - |seen|];
        assert node !in added;
      } else {
        assert seen'[i] == seen[i];
        var q := p[seen[i]].value;
        assert q in seen;
      }
    }
  }

  lemma StepClosed(n: nat, edges: seq<Edge>, decide: (nat, nat, nat) -> int, p: seq<Option<nat>>, root: nat,
    ud: seq<BinaryInfo>, seen: seq<nat>, done: nat, rank: seq<nat>, ud': seq<BinaryInfo>, rank': seq<nat>)
    requires Accepted(n, edges, p) && Bfs(n, edges, decide, p, root, ud, seen, done, rank) && done < |seen|
    requires Stepped(n, edges, decide, p, ud, seen, done, rank, ud', rank')
    ensures var seen' := seen + Enqueued(Place(edges, decide, seen[done]));
      forall x | 0 <= x < n && p[x].Some? && InSeen(seen', rank', p[x].value) && rank'[p[x].value] < done + 1 ::
        InSeen(seen', rank', x)
  {
    var node := seen[done];
    var added := Enqueued(Place(edges, decide, node));
    AddedFresh(n, edges, decide, p, root, ud, seen, done, rank);
    ChildrenNoDup(edges, node);
    assert |Children(edges, node)| <= 2;
    forall x | 0 <= x < n && p[x] == Some(node)
      ensures x in added
    {
      ChildOf(n, edges, node, x);
    }
    forall x | 0 <= x < n && p[x].Some? && InSeen(seen + added, rank', p[x].value) && rank'[p[x].value] < done + 1
      ensures InSeen(seen + added, rank', x)
    {
      StepClosedAt(n, p, seen, done, rank, added, rank', x);
    }
  }

  /** The closure of one node under the step, from the few facts it needs. */
  lemma StepClosedAt(n: nat, p: seq<Option<nat>>, seen: seq<nat>, done: nat, rank: seq<nat>, added: seq<nat>,
    rank': seq<nat>, x: nat)
    requires |p| == n && |rank| == n && done < |seen|
    requires forall i | 0 <= i < |seen| :: seen[i] < n && rank[seen[i]] == i
    requires forall y | 0 <= y < n && p[y].Some? && InSeen(seen, rank, p[y].value) && rank[p[y].value] < done ::
      InSeen(seen, rank, y)
    requires RanksShifted(rank, rank', added, |seen|)
    requires forall c | c in added :: c !in seen
    requires forall y | 0 <= y < n && p[y] == Some(seen[done]) :: y in added
    requires x < n && p[x].Some? && InSeen(seen + added, rank', p[x].value) && rank'[p[x].value] < done + 1
    ensures InSeen(seen + added, rank', x)
  {
    var seen' := seen + added;
    var q := p[x].value;
    if q in added {
      assert false;
    } else if rank[q] < done {
      assert rank'[q] == rank[q];
      assert seen'[rank[q]] == seen[rank[q]];
      assert InSeen(seen, rank, q);
      assert seen[rank[x]] == x;
      assert x !in added;
    } else {
      assert rank'[q] == rank[q] == done;
      assert seen'[done] == seen[done];
      assert x in added;
      var k :| 0 <= k < |added| && added[k] == x;
      assert seen'[|seen| + k] == x;
    }
  }

  lemma StepSlots(n: nat, edges: seq<Edge>, decide: (nat, nat, nat) -> int, p: seq<Option<nat>>,
    ud: seq<BinaryInfo>, seen: seq<nat>, done: nat, rank: seq<nat>, ud': seq<BinaryInfo>)
    requires done < |seen| && |p| == n && |rank| == n && |ud| == n
    requires forall i | 0 <= i < |seen| :: seen[i] < n && rank[seen[i]] == i
    requires forall i | 0 <= i < done :: ud[seen[i]] == BuiltInfo(p, edges, decide, seen[i])
    requires forall i | done <= i < |seen| :: ud[seen[i]] == BinaryInfo(p[seen[i]], None, false, None, false)
    requires SlotsLinked(n, edges, decide, p, ud, ud', seen[done])
    requires forall c | c in Enqueued(Place(edges, decide, seen[done])) :: c !in seen && p[c] == Some(seen[done])
    ensures var seen' := seen + Enqueued(Place(edges, decide, seen[done]));
      && (forall i | 0 <= i < done + 1 :: ud'[seen'[i]] == BuiltInfo(p, edges, decide, seen'[i]))
      && (forall i | done + 1 <= i < |seen'| :: ud'[seen'[i]] == BinaryInfo(p[seen'[i]], None, false, None, false))
  {
    var node := seen[done];
    var added := Enqueued(Place(edges, decide, node));
    var seen' := seen + added;
    forall i | 0 <= i < done + 1
      ensures ud'[seen'[i]] == BuiltInfo(p, edges, decide, seen'[i])
    {
      assert seen'[i] == seen[i] && seen[i] !in added;
      if i < done {
        assert rank[seen[i]] != rank[node];
      }
    }
    forall i | done + 1 <= i < |seen'|
      ensures ud'[seen'[i]] == BinaryInfo(p[seen'[i]], None, false, None, false)
    {
      if i >= |seen| {
        assert seen'[i] == added[i - |seen|];
      } else {
        assert seen'[i] == seen[i] && seen[i] !in added;
        assert rank[seen[i]] != rank[node];
      }
    }
  }

  /** Dequeuing one node and enqueuing its placed children keeps the walk's state, and the walk advances. */
  lemma BfsStep(n: nat, edges: seq<Edge>, decide: (nat, nat, nat) -> int, p: seq<Option<nat>>, root: nat,
    ud: seq<BinaryInfo>, seen: seq<nat>, done: nat, rank: seq<nat>, ud': seq<BinaryInfo>, rank': seq<nat>)
    requires Accepted(n, edges, p) && Bfs(n, edges, decide, p, root, ud, seen, done, rank) && done < |seen|
    requires Stepped(n, edges, decide, p, ud, seen, done, rank, ud', rank')
    ensures var added := Enqueued(Place(edges, decide, seen[done]));
      && Bfs(n, edges, decide, p, root, ud', seen + added, done + 1, rank')
      && (|added| > 0 ==> Unseen(n, seen + added) < Unseen(n, seen))
  {
    var added := Enqueued(Place(edges, decide, seen[done]));
    StepSeen(n, edges, decide, p, root, ud, seen, done, rank, ud', rank');
    StepParents(n, edges, decide, p, root, ud, seen, done, rank, ud', rank');
    StepClosed(n, edges, decide, p, root, ud, seen, done, rank, ud', rank');
    AddedFresh(n, edges, decide, p, root, ud, seen, done, rank);
    StepSlots(n, edges, decide, p, ud, seen, done, rank, ud');
    if |added| > 0 {
      assert added[0] in Unseen(n, seen) && added[0] !in Unseen(n, seen + added);
    }
  }

  /** A list of distinct nodes below `n` has at most `n` entries. */
  lemma {:induction false} DistinctBelow(s: seq<nat>, n: nat)
    requires forall i | 0 <= i < |s| :: s[i] < n
    requires NoDup(s)
    ensures |s| <= n
    decreases n
  {
    if |s| > 0 {
      assert s[0] < n;
      var s' := s;
      if i :| 0 <= i < |s| && s[i] == n - 1 {
        s' := s[..i] + s[i + 1..];
        forall a, b | 0 <= a < b < |s'|
          ensures s'[a] != s'[b]
        {
          var a0 := if a < i then a else a + 1;
          var b0 := if b < i then b else b + 1;
          assert s'[a] == s[a0] && s'[b] == s[b0];
        }
        forall a | 0 <= a < |s'|
          ensures s'[a] < n - 1
        {
          var a0 := if a < i then a else a + 1;
          assert s'[a] == s[a0];
        }
      }
      DistinctBelow(s', n - 1);
    }
  }

  /** Every node whose parent chain reaches the root was enqueued, once the walk has dequeued all. */
  lemma {:induction false} BfsCovers(p: seq<Option<nat>>, root: nat, seen: seq<nat>, rank: seq<nat>, x: nat, k: nat)
    requires ParentsIn(p) && x < |p| && InSeen(seen, rank, root)
    requires forall y | 0 <= y < |p| && p[y].Some? && InSeen(seen, rank, p[y].value) && rank[p[y].value] < |seen| ::
      InSeen(seen, rank, y)
    requires Up(p, x, k) == root
    ensures InSeen(seen, rank, x)
    decreases k
  {
    if k > 0 && p[x].Some? {
      BfsCovers(p, root, seen, rank, p[x].value, k - 1);
    }
  }

  /**
   * The walk has emptied its queue: every node holds its built slot, and the enqueue ranks
   * grow from each node to its children.
   */
  lemma BfsDone(n: nat, edges: seq<Edge>, decide: (nat, nat, nat) -> int, p: seq<Option<nat>>, root: nat,
    ud: seq<BinaryInfo>, seen: seq<nat>, rank: seq<nat>)
    requires Accepted(n, edges, p) && Bfs(n, edges, decide, p, root, ud, seen, |seen|, rank)
    requires forall v | 0 <= v < n :: ReachesRoot(p, v, root)
    ensures ud == Built(n, edges, decide)
    ensures RankOk(ud, rank)
  {
    BfsAllSeen(n, edges, decide, p, root, ud, seen, rank);
    forall v | 0 <= v < n
      ensures ud[v] == BuiltInfo(p, edges, decide, v)
    {
      assert InSeen(seen, rank, v);
    }
    assert NoDup(seen) by {
      forall i, j | 0 <= i < j < |seen|
        ensures seen[i] != seen[j]
      {
        assert rank[seen[i]] == i && rank[seen[j]] == j;
      }
    }
    DistinctBelow(seen, n);
    BfsRanked(n, edges, decide, p, root, ud, seen, rank);
  }

  /** Once the queue is empty, every node that reaches the root has been enqueued. */
  lemma BfsAllSeen(n: nat, edges: seq<Edge>, decide: (nat, nat, nat) -> int, p: seq<Option<nat>>, root: nat,
    ud: seq<BinaryInfo>, seen: seq<nat>, rank: seq<nat>)
    requires Accepted(n, edges, p) && Bfs(n, edges, decide, p, root, ud, seen, |seen|, rank)
    requires forall v | 0 <= v < n :: ReachesRoot(p, v, root)
    ensures forall v | 0 <= v < n :: InSeen(seen, rank, v)
  {
    forall v | 0 <= v < n
      ensures InSeen(seen, rank, v)
    {
      assert ReachesRoot(p, v, root);
      var k: nat :| Up(p, v, k) == root;
      BfsCovers(p, root, seen, rank, v, k);
    }
  }

  /** With every node enqueued, each built child is enqueued after its parent. */
  lemma BfsRanked(n: nat, edges: seq<Edge>, decide: (nat, nat, nat) -> int, p: seq<Option<nat>>, root: nat,
    ud: seq<BinaryInfo>, seen: seq<nat>, rank: seq<nat>)
    requires Accepted(n, edges, p) && Bfs(n, edges, decide, p, root, ud, seen, |seen|, rank)
    requires |seen| <= n && forall v | 0 <= v < n :: InSeen(seen, rank, v)
    requires forall v | 0 <= v < n :: ud[v] == BuiltInfo(p, edges, decide, v)
    ensures RankOk(ud, rank)
  {
    forall v | 0 <= v < n
      ensures && rank[v] < n
              && (ud[v].leftChild.Some? ==> ud[v].leftChild.value < n && rank[ud[v].leftChild.value] > rank[v])
              && (ud[v].rightChild.Some? ==> ud[v].rightChild.value < n && rank[ud[v].rightChild.value] > rank[v])
    {
      assert InSeen(seen, rank, v);
      var lr := Place(edges, decide, v);
      if lr.0.Some? {
        var c := lr.0.value;
        ChildOf(n, edges, v, c);
        assert InSeen(seen, rank, c) && rank[c] > 0;
      }
      if lr.1.Some? {
        var c := lr.1.value;
        ChildOf(n, edges, v, c);
        assert InSeen(seen, rank, c) && rank[c] > 0;
      }
    }
  }

  /** `rank` with the nodes of `added` given the positions `base`, `base + 1`, ... */
  function Reranked(rank: seq<nat>, added: seq<nat>, base: nat): (r: seq<nat>)
    ensures NoDup(added) && (forall c | c in added :: c < |rank|) ==> RanksShifted(rank, r, added, base)
  {
    var r := seq(|rank|, x requires 0 <= x < |rank| => if x in added then base + IndexOf(added, x) else rank[x]);
    assert NoDup(added) && (forall c | c in added :: c < |rank|) ==>
      forall k | 0 <= k < |added| :: added[k] < |rank| && r[added[k]] == base + k by {
      if NoDup(added) && (forall c | c in added :: c < |rank|) {
        forall k | 0 <= k < |added|
          ensures added[k] < |rank| && r[added[k]] == base + k
        {
          assert added[k] in added;
          var j := IndexOf(added, added[k]);
          assert added[j] == added[k];
        }
      }
    }
    r
  }

  function IndexOf(s: seq<nat>, x: nat): (k: nat)
    requires x in s
    ensures k < |s| && s[k] == x
    ensures NoDup(s) ==> forall j | 0 <= j < |s| && s[j] == x :: j == k
  {
    if s[0] == x then 0 else 1 + IndexOf(s[1..], x)
  }

  /** Every node lies in the tree spelled from `root`, and nothing else does. */
  lemma BuiltCovers(n: nat, p: seq<Option<nat>>, root: nat, ud: seq<BinaryInfo>, rank: seq<nat>)
    requires |ud| == n && |p| == n && ParentsIn(p) && RankOk(ud, rank) && Linked(ud) && root < n
    requires forall v | 0 <= v < n :: ud[v].parent == p[v]
    requires forall v | 0 <= v < n :: ReachesRoot(p, v, root)
    ensures forall x: nat :: x in Ids(TreeAt(ud, rank, root)) <==> x < n
  {
    forall x: nat
      ensures x in Ids(TreeAt(ud, rank, root)) <==> x < n
    {
      if x < n {
        assert ReachesRoot(p, x, root);
        var k: nat :| Up(p, x, k) == root;
        TreeAtCovers(ud, rank, p, root, x, k);
      }
      if x in Ids(TreeAt(ud, rank, root)) {
        TreeAtBelow(ud, rank, root, x);
      }
    }
  }

  /**
   * Once the walk is over, the pointers spell one binary tree: rooted at `root`, holding
   * every node once, an only child on the left, and every slot the record built for it.
   */
  lemma BuiltTree(n: nat, edges: seq<Edge>, decide: (nat, nat, nat) -> int, p: seq<Option<nat>>, root: nat,
    ud: seq<BinaryInfo>, rank: seq<nat>) returns (tree: Tree)
    requires Accepted(n, edges, p) && root < n && p[root].None?
    requires forall v | 0 <= v < n :: ReachesRoot(p, v, root)
    requires ud == Built(n, edges, decide) && RankOk(ud, rank)
    requires TreeRootSpec(n, edges).Success?
    ensures RootId(tree) == Some(root)
    ensures Fresh(ud, tree, None) && Distinct(tree) && LeftBiased(tree)
    ensures forall x: nat :: x in Ids(tree) <==> x < n
  {
    BuiltLinked(n, edges, decide);
    tree := TreeAt(ud, rank, root);
    TreeAtFresh(ud, rank, root);
    TreeAtDistinct(ud, rank, root);
    assert forall v | 0 <= v < n :: ud[v].parent == p[v];
    BuiltCovers(n, p, root, ud, rank);
  }
}
