/**
 * The graph extension methods: GetTreeRoot, BuildBinaryTree, Threadify and Unthreadify.
 * A graph has nodes 0 .. nodeCount-1 and a fixed edge list; each node's UserData slot, the
 * only thing these methods change, is the `userData` field.
 */
module GraphExtensions {
  import opened Wrappers
  import opened Trees
  import opened TreeRoot
  import opened BinaryInfos
  import opened Threading
  import opened BuildTree

  /** GetTreeRoot's per-node bookkeeping: the parent found so far and the walk that stamped the node. */
  datatype NodeInfo = NodeInfo(parent: Option<nat>, tag: nat)

  /** A record with no pointers, standing for a UserData slot that holds no BinaryInfo yet. */
  const Blank := BinaryInfo(None, None, false, None, false)

  /** A chain of parent links along `path`, each element's parent being the next one. */
  ghost predicate Chain(p: seq<Option<nat>>, path: seq<nat>) {
    forall i | 0 <= i < |path| - 1 :: path[i] < |p| && p[path[i]] == Some(path[i + 1])
  }

  /** When the end of a chain reaches the root, every node on it does. */
  lemma {:induction false} ChainReaches(p: seq<Option<nat>>, path: seq<nat>, root: nat)
    requires ParentsIn(p) && Chain(p, path) && |path| > 0
    requires forall i | 0 <= i < |path| :: path[i] < |p|
    requires ReachesRoot(p, path[|path| - 1], root)
    ensures forall i | 0 <= i < |path| :: ReachesRoot(p, path[i], root)
    ensures forall x | x in path :: x < |p| && ReachesRoot(p, x, root)
    decreases |path|
  {
    if |path| > 1 {
      var rest := path[1..];
      assert Chain(p, rest) by {
        forall i | 0 <= i < |rest| - 1
          ensures rest[i] < |p| && p[rest[i]] == Some(rest[i + 1])
        {
          assert rest[i] == path[i + 1] && rest[i + 1] == path[i + 2];
        }
      }
      ChainReaches(p, rest, root);
      assert path[1] == rest[0];
      StepReach(p, path[0], root);
      forall i | 0 <= i < |path|
        ensures ReachesRoot(p, path[i], root)
      {
        if i > 0 {
          assert path[i] == rest[i - 1];
        }
      }
    }
  }

  /** A walk that meets its own stamp has gone round a cycle: its start never reaches the root. */
  lemma CycleFound(p: seq<Option<nat>>, path: seq<nat>, cur: nat, root: nat)
    requires ParentsIn(p) && Chain(p, path) && cur in path
    requires forall i | 0 <= i < |path| :: path[i] < |p|
    requires p[path[|path| - 1]] == Some(cur)
    requires root < |p| && p[root].None?
    ensures !ReachesRoot(p, path[0], root)
  {
    var s := set i | 0 <= i < |path| :: path[i];
    assert ParentClosed(p, s) by {
      forall x | x in s
        ensures x < |p| && p[x].Some? && p[x].value in s
      {
        var i :| 0 <= i < |path| && path[i] == x;
        if i < |path| - 1 {
          assert path[i + 1] in s;
        }
      }
    }
    ClosedNeverRoots(p, s, path[0], root);
  }

  /** Dequeuing the first queued node and enqueuing `added` keeps the queue a suffix of the enqueue order. */
  lemma QueueShift(seen: seq<nat>, done: nat, added: seq<nat>)
    requires done < |seen|
    ensures seen[done + 1..] + added == (seen + added)[done + 1..]
  {
  }

  /** Every node keeps its parent, no stamp exceeds `tag`, and a stamped node reaches the root. */
  ghost predicate Stamped(s: seq<NodeInfo>, p: seq<Option<nat>>, root: nat, tag: nat)
    requires ParentsIn(p)
  {
    && |s| == |p|
    && (forall x | 0 <= x < |s| :: s[x].parent == p[x] && s[x].tag < tag)
    && (forall x | 0 <= x < |s| && s[x].tag > 0 :: ReachesRoot(p, x, root))
  }

  function Untagged(s: seq<NodeInfo>): set<nat> {
    set x | 0 <= x < |s| && s[x].tag == 0
  }

  /** Midway through a tag walk from `v`: `path` holds the nodes stamped so far, `cur` is next. */
  ghost predicate Walking(s: seq<NodeInfo>, s0: seq<NodeInfo>, p: seq<Option<nat>>, root: nat, tag: nat,
    v: nat, cur: nat, path: seq<nat>)
  {
    && |s| == |s0| == |p| && ParentsIn(p) && cur < |p| && v < |p| && tag > 0
    && root in Roots(p) && (forall u | u in Roots(p) :: u == root)
    && (forall x | 0 <= x < |s| :: s[x].parent == p[x] && s[x].tag <= tag)
    && (forall x | 0 <= x < |s| :: s[x].tag == tag <==> x in path)
    && (forall x | 0 <= x < |s| && 0 < s[x].tag < tag :: ReachesRoot(p, x, root))
    && (forall x | 0 <= x < |s| && s0[x].tag > 0 :: s[x].tag == s0[x].tag)
    && (forall i | 0 <= i < |path| :: path[i] < |s|)
    && Chain(p, path)
    && (|path| == 0 ==> cur == v)
    && (|path| > 0 ==> path[0] == v && p[path[|path| - 1]] == Some(cur))
  }

  /** A finished walk from `v`: `v` is stamped, earlier stamps stay, and every stamped node reaches the root. */
  ghost predicate WalkDone(s: seq<NodeInfo>, s0: seq<NodeInfo>, p: seq<Option<nat>>, root: nat, tag: nat, v: nat)
    requires ParentsIn(p)
  {
    && |s| == |s0| == |p| && v < |s|
    && s[v].tag > 0
    && (forall x | 0 <= x < |s| :: s[x].parent == p[x] && s[x].tag <= tag)
    && (forall x | 0 <= x < |s| && s0[x].tag > 0 :: s[x].tag > 0)
    && (forall x | 0 <= x < |s| && s[x].tag > 0 :: ReachesRoot(p, x, root))
  }

  lemma WalkStart(s0: seq<NodeInfo>, p: seq<Option<nat>>, root: nat, tag: nat, v: nat)
    requires ParentsIn(p) && v < |p| && Stamped(s0, p, root, tag)
    requires root in Roots(p) && forall u | u in Roots(p) :: u == root
    ensures Walking(s0, s0, p, root, tag, v, v, [])
  {
  }

  /** Stamping a node that has a parent moves the walk one step up. */
  lemma WalkStep(s: seq<NodeInfo>, s0: seq<NodeInfo>, p: seq<Option<nat>>, root: nat, tag: nat,
    v: nat, cur: nat, path: seq<nat>)
    requires Walking(s, s0, p, root, tag, v, cur, path)
    requires s[cur].tag == 0 && p[cur].Some?
    ensures var s' := s[cur := s[cur].(tag := tag)];
      && Walking(s', s0, p, root, tag, v, p[cur].value, path + [cur])
      && Untagged(s') < Untagged(s)
  {
    var s' := s[cur := s[cur].(tag := tag)];
    assert cur in Untagged(s) && cur !in Untagged(s');
    var path' := path + [cur];
    assert Chain(p, path') by {
      forall i | 0 <= i < |path'| - 1
        ensures path'[i] < |p| && p[path'[i]] == Some(path'[i + 1])
      {
        if i < |path| - 1 {
          assert path'[i] == path[i] && path'[i + 1] == path[i + 1];
        }
      }
    }
    forall x | 0 <= x < |s'|
      ensures s'[x].tag == tag <==> x in path'
    {
      assert x in path' <==> x in path || x == cur;
    }
  }

  /** Stamping the root ends the walk: the whole path reaches the root. */
  lemma WalkAtRoot(s: seq<NodeInfo>, s0: seq<NodeInfo>, p: seq<Option<nat>>, root: nat, tag: nat,
    v: nat, cur: nat, path: seq<nat>)
    requires Walking(s, s0, p, root, tag, v, cur, path)
    requires s[cur].tag == 0 && p[cur].None? && tag > 0
    ensures WalkDone(s[cur := s[cur].(tag := tag)], s0, p, root, tag, v)
  {
    var s' := s[cur := s[cur].(tag := tag)];
    var path' := path + [cur];
    assert cur in Roots(p);
    assert Up(p, cur, 0) == root;
    assert Chain(p, path') by {
      forall i | 0 <= i < |path'| - 1
        ensures path'[i] < |p| && p[path'[i]] == Some(path'[i + 1])
      {
        if i < |path| - 1 {
          assert path'[i] == path[i] && path'[i + 1] == path[i + 1];
        }
      }
    }
    ChainReaches(p, path', root);
    assert path'[0] == v;
    forall x | 0 <= x < |s'| && s'[x].tag > 0
      ensures ReachesRoot(p, x, root)
    {
      if s'[x].tag == tag {
        assert x in path';
      }
    }
  }

  /** Meeting a node stamped by an earlier walk ends the walk: that node reaches the root. */
  lemma WalkJoins(s: seq<NodeInfo>, s0: seq<NodeInfo>, p: seq<Option<nat>>, root: nat, tag: nat,
    v: nat, cur: nat, path: seq<nat>)
    requires Walking(s, s0, p, root, tag, v, cur, path)
    requires 0 < s[cur].tag < tag
    ensures WalkDone(s, s0, p, root, tag, v)
  {
    if |path| > 0 {
      StepReach(p, path[|path| - 1], root);
      ChainReaches(p, path, root);
    }
    forall x | 0 <= x < |s| && s[x].tag > 0
      ensures ReachesRoot(p, x, root)
    {
      if s[x].tag == tag {
        assert x in path;
      }
    }
  }

  /** Meeting this walk's own stamp: the walk went round a cycle. */
  lemma WalkCycle(s: seq<NodeInfo>, s0: seq<NodeInfo>, p: seq<Option<nat>>, root: nat, tag: nat,
    v: nat, cur: nat, path: seq<nat>)
    requires Walking(s, s0, p, root, tag, v, cur, path)
    requires s[cur].tag == tag
    ensures !ReachesRoot(p, v, root)
  {
    assert cur in path;
    assert p[root].None?;
    CycleFound(p, path, cur, root);
  }

  class Graph {
    const nodeCount: nat
    const edges: seq<Edge>
    var userData: seq<BinaryInfo>

    ghost predicate Valid()
      reads this
    {
      EdgesIn(nodeCount, edges) && |userData| == nodeCount
    }

    constructor(n: nat, es: seq<Edge>)
      requires EdgesIn(n, es)
      ensures Valid() && nodeCount == n && edges == es
      ensures userData == seq(n, _ => Blank)
    {
      nodeCount := n;
      edges := es;
      userData := seq(n, _ => Blank);
    }

    /**
     * The node without a parent, when the graph is a tree; otherwise the first failure among:
     * a node reached by a second edge, no parentless node or a parent chain that closes a
     * cycle, more than one parentless node.
     */
    method GetTreeRoot() returns (r: Result<nat, TreeError>)
      requires Valid()
      ensures r == TreeRootSpec(nodeCount, edges)
    {
      var nodes := new NodeInfo[nodeCount](_ => NodeInfo(None, 0));
      var scanError := ScanParents(nodes);
      if scanError.Some? {
        return Failure(scanError.value);
      }
      ghost var p := ParentScan(nodeCount, edges).value;
      var rootCount, rootId := CountRoots(nodes, p);
      if rootCount == 0 {
        return Failure(Cycle);
      } else if rootCount > 1 {
        return Failure(MultipleRoots);
      }
      var root := rootId;
      assert forall u | u in Roots(p) :: u == root by {
        forall u | u in Roots(p)
          ensures u == root
        {
          SingletonMember(Roots(p), u, root);
        }
      }
      assert root in Roots(p);
      var cycle := TagWalks(nodes, p, root);
      if cycle {
        return Failure(Cycle);
      }
      return Success(root);
    }

    /** The edge loop of GetTreeRoot: records each edge's source as its target's parent. */
    method ScanParents(nodes: array<NodeInfo>) returns (err: Option<TreeError>)
      requires Valid() && nodes.Length == nodeCount
      requires forall v | 0 <= v < nodeCount :: nodes[v] == NodeInfo(None, 0)
      modifies nodes
      ensures err.Some? ==> ParentScan(nodeCount, edges) == Failure(err.value)
      ensures err.None? ==> ParentScan(nodeCount, edges).Success?
      ensures err.None? ==>
        forall v | 0 <= v < nodeCount :: nodes[v] == NodeInfo(ParentScan(nodeCount, edges).value[v], 0)
    {
      var n := nodeCount;
      for i := 0 to |edges|
        invariant ParentScan(n, edges[..i]).Success?
        invariant forall v | 0 <= v < n :: nodes[v] == NodeInfo(ParentScan(n, edges[..i]).value[v], 0)
      {
        var e := edges[i];
        assert edges[..i + 1][..i] == edges[..i];
        if nodes[e.1].parent.Some? {
          ScanFailureStays(n, edges, i + 1);
          return Some(MultipleParents(e.1));
        }
        nodes[e.1] := nodes[e.1].(parent := Some(e.0));
      }
      assert edges[..|edges|] == edges;
      return None;
    }

    /** The number of parentless nodes, and one of them when there is any. */
    method CountRoots(nodes: array<NodeInfo>, ghost p: seq<Option<nat>>) returns (rootCount: nat, rootId: nat)
      requires nodes.Length == |p|
      requires forall x | 0 <= x < |p| :: nodes[x].parent == p[x]
      ensures rootCount == |Roots(p)|
      ensures rootCount > 0 ==> rootId in Roots(p)
    {
      rootCount := 0;
      rootId := 0;
      for v := 0 to nodes.Length
        invariant rootCount == |set u | 0 <= u < v && p[u].None?|
        invariant rootCount > 0 ==> rootId < v && p[rootId].None?
      {
        assert (set u | 0 <= u < v + 1 && p[u].None?) ==
          (set u | 0 <= u < v && p[u].None?) + (if p[v].None? then {v} else {});
        if nodes[v].parent.None? {
          rootCount := rootCount + 1;
          rootId := v;
        }
      }
      assert (set u | 0 <= u < |p| && p[u].None?) == Roots(p);
    }

    /**
     * The tag walks of GetTreeRoot: a walk from every node not yet stamped; the graph has a
     * cycle exactly when some node's parent chain never reaches the root.
     */
    method TagWalks(nodes: array<NodeInfo>, ghost p: seq<Option<nat>>, root: nat) returns (cycle: bool)
      requires nodes.Length == |p| && ParentsIn(p)
      requires forall x | 0 <= x < |p| :: nodes[x] == NodeInfo(p[x], 0)
      requires root in Roots(p) && forall u | u in Roots(p) :: u == root
      modifies nodes
      ensures cycle <==> exists v | 0 <= v < |p| :: !ReachesRoot(p, v, root)
    {
      var n := nodes.Length;
      var tag := 0;
      for v := 0 to n
        invariant Stamped(nodes[..], p, root, tag + 1)
        invariant forall x | 0 <= x < v :: nodes[x].tag > 0
      {
        if nodes[v].tag > 0 {
          continue;
        }
        tag := tag + 1;
        cycle := TagWalk(nodes, p, root, v, tag);
        if cycle {
          return;
        }
      }
      forall v | 0 <= v < n
        ensures ReachesRoot(p, v, root)
      {
        assert nodes[..][v].tag > 0;
      }
      return false;
    }

    /**
     * One tag walk: stamp `v` and its ancestors with `tag` until reaching the root or a node
     * stamped by an earlier walk. Meeting `tag` again means the chain from `v` is a cycle.
     */
    method TagWalk(nodes: array<NodeInfo>, ghost p: seq<Option<nat>>, root: nat, v: nat, tag: nat) returns (cycle: bool)
      requires nodes.Length == |p| && ParentsIn(p) && v < |p|
      requires root in Roots(p) && forall u | u in Roots(p) :: u == root
      requires Stamped(nodes[..], p, root, tag)
      modifies nodes
      ensures cycle ==> !ReachesRoot(p, v, root)
      ensures !cycle ==> WalkDone(nodes[..], old(nodes[..]), p, root, tag, v)
    {
      var cur := v;
      ghost var path: seq<nat> := [];
      ghost var s0 := nodes[..];
      WalkStart(s0, p, root, tag, v);
      while true
        invariant Walking(nodes[..], s0, p, root, tag, v, cur, path)
        decreases Untagged(nodes[..])
      {
        var info := nodes[cur];
        if info.tag == 0 {
          ghost var s := nodes[..];
          nodes[cur] := info.(tag := tag);
          assert nodes[..] == s[cur := info.(tag := tag)];
          if info.parent.None? {
            WalkAtRoot(s, s0, p, root, tag, v, cur, path);
            return false;
          }
          WalkStep(s, s0, p, root, tag, v, cur, path);
          path := path + [cur];
          cur := info.parent.value;
        } else if info.tag == tag {
          WalkCycle(nodes[..], s0, p, root, tag, v, cur, path);
          return true;
        } else {
          WalkJoins(nodes[..], s0, p, root, tag, v, cur, path);
          return false;
        }
      }
    }

    /**
     * Turns the graph into a binary tree: after GetTreeRoot and the check that no node has
     * more than two out-edges, a breadth-first walk from the root gives every node a fresh
     * record naming its parent and links each node to its children, an only child on the
     * left and two children in the order the decider picks.
     */
    method BuildBinaryTree(decide: (nat, nat, nat) -> int) returns (r: Result<nat, TreeError>, ghost tree: Tree)
      requires Valid()
      modifies this
      ensures Valid()
      ensures r == BuildSpec(nodeCount, edges)
      ensures r.Failure? ==> userData == old(userData)
      ensures r.Success? ==> ParentScan(nodeCount, edges).Success? && userData == Built(nodeCount, edges, decide)
      ensures r.Success? ==>
        && RootId(tree) == Some(r.value)
        && Fresh(userData, tree, None) && Distinct(tree) && LeftBiased(tree)
        && forall x: nat :: x in Ids(tree) <==> x < nodeCount
    {
      var rootResult := GetTreeRoot();
      if rootResult.Failure? {
        return rootResult, Nil;
      }
      var root := rootResult.value;
      var wide := FirstWide(nodeCount, edges, 0);
      if wide.Some? {
        return Failure(TooManyChildren(wide.value.0, wide.value.1)), Nil;
      }
      RootedIsAcyclic(nodeCount, edges);
      RootReachedByAll(nodeCount, edges);
      ghost var p := ParentScan(nodeCount, edges).value;
      assert Accepted(nodeCount, edges, p);
      ghost var rank := LinkBreadthFirst(root, decide, p);
      tree := BuiltTree(nodeCount, edges, decide, p, root, userData, rank);
      return Success(root), tree;
    }

    /** The breadth-first walk of BuildBinaryTree from `root`, on a graph that passed its checks. */
    method LinkBreadthFirst(root: nat, decide: (nat, nat, nat) -> int, ghost p: seq<Option<nat>>)
      returns (ghost rank: seq<nat>)
      requires Valid() && Accepted(nodeCount, edges, p) && root < nodeCount && p[root].None?
      requires forall v | 0 <= v < nodeCount :: ReachesRoot(p, v, root)
      modifies this
      ensures Valid()
      ensures userData == Built(nodeCount, edges, decide) && RankOk(userData, rank)
    {
      BfsStart(nodeCount, edges, decide, p, root, userData);
      userData := userData[root := BinaryInfo(None, None, false, None, false)];
      var queue := [root];
      ghost var seen := [root];
      ghost var done := 0;
      rank := seq(nodeCount, _ => 0);
      while |queue| > 0
        invariant Valid()
        invariant done <= |seen| && queue == seen[done..]
        invariant Bfs(nodeCount, edges, decide, p, root, userData, seen, done, rank)
        decreases Unseen(nodeCount, seen), |seen| - done
      {
        queue, seen, rank := VisitNext(queue, decide, p, root, seen, done, rank);
        done := done + 1;
      }
      BfsDone(nodeCount, edges, decide, p, root, userData, seen, rank);
    }

    /** One iteration of the breadth-first walk: dequeue a node, link its children and enqueue them. */
    method VisitNext(queue: seq<nat>, decide: (nat, nat, nat) -> int, ghost p: seq<Option<nat>>, ghost root: nat,
      ghost seen: seq<nat>, ghost done: nat, ghost rank: seq<nat>)
      returns (queue': seq<nat>, ghost seen': seq<nat>, ghost rank': seq<nat>)
      requires Valid() && Accepted(nodeCount, edges, p)
      requires Bfs(nodeCount, edges, decide, p, root, userData, seen, done, rank)
      requires done < |seen| && queue == seen[done..]
      modifies this
      ensures Valid()
      ensures Bfs(nodeCount, edges, decide, p, root, userData, seen', done + 1, rank')
      ensures queue' == seen'[done + 1..]
      ensures seen' == seen || Unseen(nodeCount, seen') < Unseen(nodeCount, seen)
    {
      var node := queue[0];
      assert node == seen[done];
      ghost var ud := userData;
      AddedFresh(nodeCount, edges, decide, p, root, userData, seen, done, rank);
      var added := LinkChildren(node, decide, p);
      QueueShift(seen, done, added);
      queue' := queue[1..] + added;
      rank' := Reranked(rank, added, |seen|);
      BfsStep(nodeCount, edges, decide, p, root, ud, seen, done, rank, userData, rank');
      seen' := seen + added;
    }

    /**
     * One dequeued node: its out-edge targets get fresh records naming it as parent and become
     * its children, an only child on the left, two in the order the decider picks. Returns
     * the nodes to enqueue, in order.
     */
    method LinkChildren(node: nat, decide: (nat, nat, nat) -> int, ghost p: seq<Option<nat>>) returns (added: seq<nat>)
      requires Valid() && |p| == nodeCount && node < nodeCount
      requires userData[node] == BinaryInfo(p[node], None, false, None, false)
      requires var lr := Enqueued(Place(edges, decide, node));
        NoDup(lr) && forall c | c in lr :: c < nodeCount && c != node
      modifies this
      ensures Valid()
      ensures added == Enqueued(Place(edges, decide, node))
      ensures SlotsLinked(nodeCount, edges, decide, p, old(userData), userData, node)
    {
      var children := Children(edges, node);
      if |children| == 1 {
        userData := userData[children[0] := BinaryInfo(Some(node), None, false, None, false)];
        userData := userData[node := userData[node].(leftChild := Some(children[0]))];
        added := [children[0]];
      } else if |children| == 2 {
        added := LinkPair(node, decide, p, children);
      } else {
        added := [];
      }
    }

    /** Two out-edge targets: the decider picks which becomes the left child. */
    method LinkPair(node: nat, decide: (nat, nat, nat) -> int, ghost p: seq<Option<nat>>, children: seq<nat>)
      returns (added: seq<nat>)
      requires Valid() && |p| == nodeCount && node < nodeCount
      requires children == Children(edges, node) && |children| == 2
      requires userData[node] == BinaryInfo(p[node], None, false, None, false)
      requires var lr := Enqueued(Place(edges, decide, node));
        NoDup(lr) && forall c | c in lr :: c < nodeCount && c != node
      modifies this
      ensures Valid()
      ensures added == Enqueued(Place(edges, decide, node))
      ensures SlotsLinked(nodeCount, edges, decide, p, old(userData), userData, node)
    {
      var left, right;
      if decide(children[0], children[1], node) < 0 {
        left, right := children[0], children[1];
      } else {
        left, right := children[1], children[0];
      }
      assert Place(edges, decide, node) == (Some(left), Some(right));
      assert Enqueued(Place(edges, decide, node)) == [left, right];
      assert left in [left, right] && right in [left, right] && [left, right][0] != [left, right][1];
      ghost var ud := userData;
      userData := userData[node := userData[node].(leftChild := Some(left))];
      userData := userData[left := BinaryInfo(Some(node), None, false, None, false)];
      userData := userData[node := userData[node].(rightChild := Some(right))];
      userData := userData[right := BinaryInfo(Some(node), None, false, None, false)];
      added := [left, right];
      PairLinked(nodeCount, edges, decide, p, ud, userData, node, left, right);
    }

    /**
     * The local SelfThreadify of the private Threadify: visiting `node` right after `prior`,
     * an absent left pointer of `node` becomes a thread to `prior`, and an absent right
     * pointer of `prior` a thread to `node` (guarded by `node`'s own right-thread flag).
     */
    method SelfThreadify(node: nat, prior: Option<nat>)
      requires Valid() && node < nodeCount && PriorIn(prior, nodeCount)
      modifies this
      ensures Valid()
      ensures userData == Threading.SelfThreadify(old(userData), node, prior)
    {
      var nodeInfo := userData[node];
      if !nodeInfo.isLeftThread && nodeInfo.leftChild.None? {
        userData := userData[node := nodeInfo.(isLeftThread := true, leftChild := prior)];
      }
      if prior.Some? && !userData[node].isRightThread && userData[prior.value].rightChild.None? {
        userData := userData[prior.value := userData[prior.value].(isRightThread := true, rightChild := Some(node))];
      }
    }

    /**
     * The private, recursive Threadify: visits the subtree at `node` in `order`, recursing
     * through real children only, with `prior` the node visited before it; returns the last
     * node visited. The result is the fold of SelfThreadify over the subtree's order.
     */
    method ThreadifyFrom(node: nat, prior: Option<nat>, order: TraversalOrder, ghost t: Tree) returns (last: Option<nat>)
      requires Valid() && PriorIn(prior, nodeCount)
      requires t.Node? && t.id == node && Real(userData, t)
      modifies this
      ensures Valid()
      ensures IdsBelow(Order(t, order), nodeCount)
      ensures (userData, last) == ThreadSeq(old(userData), prior, Order(t, order))
      decreases t, 0
    {
      ghost var info0 := userData;
      OrderBelow(info0, t, order);
      var cur;
      ghost var d1, d2, d3, d4, d5;
      cur, d1 := VisitWhen(node, prior, order, PreOrder, info0, prior, []);
      FoldReal(info0, prior, d1, t);
      cur, d2 := ThreadifyChild(userData[node].RealLeft(), cur, order, t.left, info0, prior, d1);
      cur, d3 := VisitWhen(node, cur, order, InOrder, info0, prior, d2);
      FoldReal(info0, prior, d3, t);
      cur, d4 := ThreadifyChild(userData[node].RealRight(), cur, order, t.right, info0, prior, d3);
      cur, d5 := VisitWhen(node, cur, order, PostOrder, info0, prior, d4);
      OrderAssembled(t, order, d1, d2, d3, d4, d5);
      last := cur;
    }

    /**
     * The recursive call on a child, made only when the child is real (HasLeftChild /
     * HasRightChild): the fold goes on over the child's subtree.
     */
    method ThreadifyChild(child: Option<nat>, cur: Option<nat>, order: TraversalOrder, ghost sub: Tree,
      ghost info0: seq<BinaryInfo>, ghost prior: Option<nat>, ghost done: seq<nat>)
      returns (cur': Option<nat>, ghost done': seq<nat>)
      requires Valid() && |info0| == nodeCount && PriorIn(prior, nodeCount) && IdsBelow(done, nodeCount)
      requires (userData, cur) == ThreadSeq(info0, prior, done)
      requires child == RootId(sub) && Real(userData, sub)
      modifies this
      ensures Valid()
      ensures done' == done + Order(sub, order) && IdsBelow(done', nodeCount)
      ensures (userData, cur') == ThreadSeq(info0, prior, done')
      decreases sub, 1
    {
      if child.Some? {
        cur' := ThreadifyFrom(child.value, cur, order, sub);
        ThreadSeqAppend(info0, prior, done, Order(sub, order));
        done' := done + Order(sub, order);
      } else {
        cur', done' := cur, done;
        assert done' == done + Order(sub, order);
      }
    }

    /** One of the three visit points of the private Threadify: SelfThreadify when `order` is `when`. */
    method VisitWhen(node: nat, cur: Option<nat>, order: TraversalOrder, when: TraversalOrder,
      ghost info0: seq<BinaryInfo>, ghost prior: Option<nat>, ghost done: seq<nat>)
      returns (cur': Option<nat>, ghost done': seq<nat>)
      requires Valid() && node < nodeCount && |info0| == nodeCount
      requires PriorIn(prior, nodeCount) && IdsBelow(done, nodeCount)
      requires (userData, cur) == ThreadSeq(info0, prior, done)
      modifies this
      ensures Valid()
      ensures done' == done + (if order == when then [node] else [])
      ensures IdsBelow(done', nodeCount)
      ensures (userData, cur') == ThreadSeq(info0, prior, done')
    {
      cur', done' := cur, done;
      if order == when {
        FoldVisit(info0, prior, done, node);
        SelfThreadify(node, cur);
        cur', done' := Some(node), done + [node];
      } else {
        assert done + [] == done;
      }
    }

    /**
     * The public Threadify: threads the tree at `root` for `order`, then, except in
     * post-order, flags the last node's right pointer as a thread.
     */
    method Threadify(root: nat, order: TraversalOrder, ghost t: Tree)
      requires Valid() && t.Node? && t.id == root && Real(userData, t)
      modifies this
      ensures Valid()
      ensures IdsBelow(Order(t, order), nodeCount)
      ensures userData == Threadified(old(userData), t, order)
    {
      var prior := ThreadifyFrom(root, None, order, t);
      if order != PostOrder {
        userData := userData[prior.value := userData[prior.value].(isRightThread := true)];
      }
    }

    /**
     * Unthreadify: through real children only, every thread pointer of the subtree at `node`
     * is cleared together with its flag; a flag whose pointer is null is left set.
     */
    method Unthreadify(node: nat, ghost t: Tree)
      requires Valid() && t.Node? && t.id == node && Real(userData, t) && Distinct(t)
      modifies this
      ensures Valid()
      ensures userData == Unthreaded(old(userData), Ids(t))
      decreases t
    {
      ghost var info0 := userData;
      RealIdsIn(userData, t);
      var info := userData[node];
      if info.leftChild.Some? {
        if info.isLeftThread {
          userData := userData[node := info.(isLeftThread := false, leftChild := None)];
        } else {
          Unthreadify(info.leftChild.value, t.left);
        }
      }
      ghost var mid := userData;
      assert forall i | 0 <= i < nodeCount && i != node ::
        mid[i] == if i in Ids(t.left) then UnthreadNode(info0[i]) else info0[i];
      assert Real(userData, t.right) by {
        RealFrame(info0, userData, t.right);
      }
      info := userData[node];
      if info.rightChild.Some? {
        if info.isRightThread {
          userData := userData[node := info.(isRightThread := false, rightChild := None)];
        } else {
          Unthreadify(info.rightChild.value, t.right);
        }
      }
      assert userData[node] == UnthreadNode(info0[node]);
      forall i | 0 <= i < nodeCount
        ensures userData[i] == Unthreaded(info0, Ids(t))[i]
      {
        if i != node && i in Ids(t.right) {
          assert i !in Ids(t.left);
        }
      }
    }

    /** A scan that fails on a prefix of the edges fails the same way on all of them. */
    static lemma {:induction false} ScanFailureStays(n: nat, edges: seq<Edge>, i: nat)
      requires EdgesIn(n, edges) && i <= |edges|
      requires ParentScan(n, edges[..i]).Failure?
      ensures ParentScan(n, edges) == ParentScan(n, edges[..i])
      decreases |edges| - i
    {
      if i < |edges| {
        assert edges[..i + 1][..i] == edges[..i];
        ScanFailureStays(n, edges, i + 1);
      } else {
        assert edges[..i] == edges;
      }
    }
  }
}
