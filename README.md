# Binary tree traversal and relationship network: a Dafny model

This project models the algorithmic core of two small WPF applications built on the MSAGL graph
library, and proves properties of that model.

**BinaryTreeTraversal** checks that a drawn graph is a rooted tree with at most two children per
node. It turns that tree into an explicit binary tree, stored as a `BinaryInfo` record in every
node's `UserData`. It then walks the tree in pre-, in- or post-order in one of two ways:

- recursively, over the raw child pointers;
- iteratively, over a *threaded* tree, in which every absent child pointer is replaced by a
  pointer to the node's predecessor or successor in the chosen order.

**RelationshipNetwork** labels every node with its relativity to a chosen target:

- `-2` for the target itself;
- `-1` for its direct neighbours;
- for every other node, the number of direct neighbours it is adjacent to.

A result window then lists the nodes with a positive label, highest first.

The model represents the graph as follows:

- Nodes are the ids `0 .. n-1`, in the graph's node order.
- Edges are `(source, target)` pairs, in the graph's edge order.
- The `UserData` slots of all nodes form one `seq` field:
  - `GraphExtensions.Graph.userData` holds the binary records;
  - `RelationshipNetwork.RelationshipGraph.labels` holds the integer labels.

The code changes that state in place, so it is modelled as classes with `modifies` clauses and
loops with invariants. Examples are the tag walk of `GetTreeRoot`, the breadth-first linking of
`BuildBinaryTree`, the recursive `Threadify`/`Unthreadify`, the threaded walk, the relativity
loops and the in-place sort.

Each such method is proved against a specification function on values, for example:

- `TreeRootSpec` and `BuildSpec` for the tree checks;
- `Built` for the records a build leaves;
- `ThreadSeq` / `Threadified` for threading, `Unthreaded` for unthreading;
- `Order` over an abstract `Tree` datatype for the traversal orders;
- `Walks` / `NextNode` for the threaded walk;
- `Relativity` for the labels;
- `Rows` for the result filter.

Lemmas then state what the source promises about those functions:

- the built records spell one binary tree holding every node;
- threading a freshly built tree gives every node its predecessor and successor threads;
- the threaded walk lists exactly the recursive traversal;
- the relativity labels stay inside the colour switch's domain.

## Behaviour the model reproduces

The model keeps the following behaviours of the code exactly as written:

- **Successor guard.** The successor thread that `SelfThreadify` sets on the prior node is
  guarded by the `IsRightThread` flag of the node being visited
  (`BinaryTreeTraversal/GraphExtensions.cs:98`).
- **Start of the threaded walk.** In in-order and in post-order alike, the walk starts by
  following real left children only (`BinaryTreeTraversal/MainWindow.xaml.cs:561-563`).
- **First node's left flag.** In every order, the first node visited has no prior node. When it
  has no left child, threading sets its `IsLeftThread` with a null `LeftChild`
  (`BinaryTreeTraversal/GraphExtensions.cs:94-97`).
- **Flags that survive a round trip.** `Unthreadify` clears a flag only together with a non-null
  pointer (`BinaryTreeTraversal/GraphExtensions.cs:125-140`). Two flags survive threading and
  unthreading: the first node's left flag when it has no left child, and, outside post-order, the
  last node's right flag (`Threading.UnthreadRoundTrip`). Threading the same records again then
  skips those threads. `ThreadedWalk.StaleFlagsDropNode` exhibits a five-node tree whose threaded
  pre-order walk after a threaded in-order walk leaves out a node.
- **Post-order null dereference.** The post-order walk reads the `UserData` of a null node in one
  case (`BinaryTreeTraversal/MainWindow.xaml.cs:587-590`): the current node is its parent's left
  child, the parent is not right-threaded, and the parent's right pointer is null. The model
  reports this as `fault`. On a freshly built tree it happens exactly when the root has only a
  left child and that child has a right child (`ThreadedWalk.PostFault`). The walk has then
  emitted the left subtree in post-order (`ThreadedWalk.PostFaultWalk`).

The traversal handler (`BinaryTreeTraversal/MainWindow.xaml.cs:309-366`) obtains the lazy
iterator of `TraverseWithThread`, threads the tree and only then runs the iterator. After a
normal end it unthreads the tree. `MainWindow.Window.TraverseWithThread` models that sequence.

## Model

| member | source | states |
|---|---|---|
| GraphExtensions.Graph.GetTreeRoot | BinaryTreeTraversal/GraphExtensions.cs:14-51 | the result is exactly `TreeRootSpec`. That is the first second in-edge as `MultipleParents`; no parentless node or a parent chain that never meets the root as `Cycle`; several parentless nodes as `MultipleRoots`; otherwise the one parentless node |
| GraphExtensions.Graph.ScanParents | BinaryTreeTraversal/GraphExtensions.cs:15-23 | the edge loop fails exactly as the parent scan does, and on success leaves every node's recorded parent with tag 0 |
| GraphExtensions.Graph.CountRoots | BinaryTreeTraversal/GraphExtensions.cs:24-30 | the count is the number of parentless nodes, and the returned id is one of them when there is any |
| GraphExtensions.Graph.TagWalks | BinaryTreeTraversal/GraphExtensions.cs:31-49 | the tag walks report a cycle exactly when some node's parent chain never reaches the root |
| GraphExtensions.Graph.TagWalk | BinaryTreeTraversal/GraphExtensions.cs:35-48 | a walk that meets its own tag starts from a node whose chain never reaches the root; otherwise it stamps the chain up to the root or an earlier walk's node |
| TreeRoot.ParentScanSpec | BinaryTreeTraversal/GraphExtensions.cs:19-23 | the scan succeeds exactly when no two edges share a target. On success each edge's source is its target's parent, and exactly the nodes without an in-edge have none. On failure the error names the target of the first edge that repeats a target |
| TreeRoot.RootedIsAcyclic | BinaryTreeTraversal/GraphExtensions.cs:24-49 | a graph GetTreeRoot accepts has a root without an in-edge, every other node has exactly one in-edge, and no non-empty set of nodes is closed under taking parents (no cycle) |
| GraphExtensions.Graph.BuildBinaryTree | BinaryTreeTraversal/GraphExtensions.cs:53-88 | the result is `BuildSpec`: GetTreeRoot's outcome, then `TooManyChildren` for the first node with more than two out-edges. A failure leaves `UserData` untouched. A success leaves exactly the `Built` records, which spell one binary tree over all nodes, freshly linked, with distinct ids and an only child on the left |
| BuildTree.FirstWide | BinaryTreeTraversal/GraphExtensions.cs:57-59 | it finds nothing exactly when no node has more than two out-edges; otherwise it returns the first such node with its out-edge count |
| BuildTree.Place | BinaryTreeTraversal/GraphExtensions.cs:65-76 | the placed children are out-edge targets. An only child goes left. Two distinct children are both placed, on different sides |
| GraphExtensions.Graph.LinkBreadthFirst | BinaryTreeTraversal/GraphExtensions.cs:60-86 | the queue loop leaves exactly the `Built` records, with enqueue ranks growing from parent to child |
| GraphExtensions.Graph.VisitNext | BinaryTreeTraversal/GraphExtensions.cs:63-86 | one dequeue keeps the breadth-first invariant, and the queue becomes the not-yet-dequeued suffix of the seen nodes |
| GraphExtensions.Graph.LinkChildren | BinaryTreeTraversal/GraphExtensions.cs:64-85 | the dequeued node's children get fresh records naming it as parent and are linked on the placed sides. The enqueued nodes are the placed children in order |
| GraphExtensions.Graph.LinkPair | BinaryTreeTraversal/GraphExtensions.cs:71-84 | two children: the decider picks left and right, both get fresh records and are enqueued left first |
| BuildTree.BfsStep | BinaryTreeTraversal/GraphExtensions.cs:63-86 | dequeuing and linking one node keeps the breadth-first invariant, and the walk makes progress |
| BuildTree.BfsDone | BinaryTreeTraversal/GraphExtensions.cs:63-86 | once the queue is empty every node holds its built record |
| BuildTree.BuiltLinked | BinaryTreeTraversal/GraphExtensions.cs:60-86 | the built records are linked: child pointers are distinct, agree with the parent pointers, and an only child is on the left |
| BuildTree.BuiltTree | BinaryTreeTraversal/GraphExtensions.cs:60-87 | the built pointers spell one binary tree rooted at the root, holding every node exactly once, left-biased, with fresh records |
| GraphExtensions.Graph.SelfThreadify | BinaryTreeTraversal/GraphExtensions.cs:92-103 | the local SelfThreadify updates `UserData` as the `Threading.SelfThreadify` step says |
| Threading.SelfThreadify | BinaryTreeTraversal/GraphExtensions.cs:92-103 | one visit touches only the node and its prior node, and never changes a parent or a real child |
| GraphExtensions.Graph.ThreadifyFrom | BinaryTreeTraversal/GraphExtensions.cs:90-114 | the private recursive Threadify folds SelfThreadify over the subtree's order and returns the last node visited |
| GraphExtensions.Graph.ThreadifyChild | BinaryTreeTraversal/GraphExtensions.cs:106-111 | a recursive call on a real child extends the fold by that child's subtree order |
| GraphExtensions.Graph.VisitWhen | BinaryTreeTraversal/GraphExtensions.cs:104-113 | a visit point extends the fold by the node exactly when the order matches |
| GraphExtensions.Graph.Threadify | BinaryTreeTraversal/GraphExtensions.cs:116-121 | the public Threadify leaves `Threadified`: the fold over the whole order, plus a right-thread flag on the last node except in post-order |
| Threading.FreshThreaded | BinaryTreeTraversal/GraphExtensions.cs:90-121 | on a freshly built tree, Threadify gives the node at each position of the order its closed-form record. A missing left child becomes a thread to the predecessor, a missing right child a thread to the successor, and the last node keeps a null right pointer, flagged except in post-order. Records outside the tree are unchanged |
| Threading.ThreadifiedReal | BinaryTreeTraversal/GraphExtensions.cs:116-121 | threading never changes the tree that the real children spell |
| GraphExtensions.Graph.Unthreadify | BinaryTreeTraversal/GraphExtensions.cs:123-141 | Unthreadify applies `UnthreadNode` to every node of the tree and to no other node |
| BinaryInfos.UnthreadNode | BinaryTreeTraversal/GraphExtensions.cs:124-140 | a thread pointer is cleared with its flag, a real child is kept, and a flag whose pointer is null stays set |
| BinaryInfos.UnthreadedReal | BinaryTreeTraversal/GraphExtensions.cs:123-141 | unthreading keeps the tree that the real children spell |
| Threading.UnthreadRoundTrip | BinaryTreeTraversal/GraphExtensions.cs:116-141 | Threadify then Unthreadify on a freshly built tree restores every record except two flags: the first node's left flag when it has no left child, and the last node's right flag outside post-order |
| ThreadedWalk.StaleFlagsDropNode | BinaryTreeTraversal/GraphExtensions.cs:94-101 | on the five-node example, after a threaded in-order round trip the recursive pre-order still lists 0, 1, 3, 4, 2, but the threaded pre-order walk lists 0, 1, 3, 4 and stops |
| BinaryInfos.FreshIsRawAndReal | BinaryTreeTraversal/MainWindow.xaml.cs:611-635 | on fresh records (no thread flags) the raw pointers and the real children spell the same tree |
| Traversal.Traverse | BinaryTreeTraversal/MainWindow.xaml.cs:532-545 | the recursive traversal over the raw pointers lists the spelled tree in the requested order |
| Trees.OrderElems | BinaryTreeTraversal/MainWindow.xaml.cs:532-545 | every order of a tree lists exactly the tree's nodes, none of them twice when the ids are distinct |
| Traversal.TraverseAfterRoundTrip | BinaryTreeTraversal/MainWindow.xaml.cs:532-545 | after a threading round trip the raw pointers spell the tree again, so the recursive traversal lists it in every order |
| MainWindow.DescendLeft | BinaryTreeTraversal/MainWindow.xaml.cs:561-563 | the loop over real left children ends at the leftmost node of the subtree |
| MainWindow.DescendPost | BinaryTreeTraversal/MainWindow.xaml.cs:589-597 | the left-else-right loop ends at the first post-order node of the subtree |
| MainWindow.StepFrom | BinaryTreeTraversal/MainWindow.xaml.cs:567-601 | one turn of the switch computes `NextNode`: the next node, the end of the walk, or the null dereference |
| MainWindow.TraverseWithThreadFrom | BinaryTreeTraversal/MainWindow.xaml.cs:558-603 | the iterator emits nothing for a null node. Otherwise it emits exactly the walk from the start node and reports a fault exactly when that walk ends in a null dereference |
| ThreadedWalk.WalksUnique | BinaryTreeTraversal/MainWindow.xaml.cs:564-602 | the threaded walk is deterministic: two walks from the same node are the same walk with the same end |
| ThreadedWalk.PreWalk | BinaryTreeTraversal/MainWindow.xaml.cs:568-570 | on a freshly threaded tree the pre-order walk lists the whole pre-order and stops |
| ThreadedWalk.InWalk | BinaryTreeTraversal/MainWindow.xaml.cs:571-576 | on a freshly threaded tree the in-order walk lists the whole in-order and stops |
| ThreadedWalk.PostWalk | BinaryTreeTraversal/MainWindow.xaml.cs:577-600 | on a freshly threaded tree without the faulting shape, the post-order walk lists the whole post-order and stops |
| ThreadedWalk.PostFaultWalk | BinaryTreeTraversal/MainWindow.xaml.cs:577-600 | on the faulting shape the post-order walk lists the left subtree in post-order and then dereferences null |
| ThreadedWalk.FreshWalk | BinaryTreeTraversal/MainWindow.xaml.cs:558-603 | on a freshly threaded tree the walk from the start lists the recursive traversal of the built pointers and stops, except on the post-order faulting shape |
| ThreadedWalk.ThreadedWalkIsTraversal | BinaryTreeTraversal/MainWindow.xaml.cs:558-603 | any walk from the start of a freshly threaded tree faults exactly on the post-order faulting shape, never emitting the root then. Otherwise it stops after listing exactly the recursive traversal |
| MainWindow.Window.TreeRoot | BinaryTreeTraversal/MainWindow.xaml.cs:87-109 | an up-to-date cache is returned unchanged. Otherwise the tree is built again: its root is cached with no exception, or the exception is stored with a null root. Afterwards the cache is up to date |
| MainWindow.Window.Traverse | BinaryTreeTraversal/MainWindow.xaml.cs:526-530 | it rethrows the stored exception when there is no tree. Otherwise it returns the tree's order, which lists every node exactly once |
| MainWindow.Window.TraverseWithThread | BinaryTreeTraversal/MainWindow.xaml.cs:552-556 | it rethrows the stored exception when there is no tree, leaving the records alone. Otherwise the result is the threaded walk from the order's start, and the records are unthreaded after a normal end and stay threaded after a fault. On freshly built records the result is the whole order, except the post-order fault after the left subtree |
| MainWindow.Window.ThreadedRun | BinaryTreeTraversal/MainWindow.xaml.cs:323-358 | the handler's threaded branch: Threadify, the walk, then Unthreadify unless the walk faulted |
| MainWindow.Window.WalkThreaded | BinaryTreeTraversal/MainWindow.xaml.cs:326-335 | Threadify(order) on the root, then the walk over the threaded records from the order's start |
| MainWindow.Window.FreshRun | BinaryTreeTraversal/MainWindow.xaml.cs:558-603 | on freshly built records the threaded walk faults exactly on the post-order faulting shape. Otherwise it is the whole order; after a fault it is the left subtree's post-order |
| MainWindow.Window.OnGraphChanged | BinaryTreeTraversal/MainWindow.xaml.cs:144-166 | the cache goes stale. With leaf highlighting on, the tree is rebuilt and the result is the stored exception or the number of the tree's leaves |
| MainWindow.CountLeaves | BinaryTreeTraversal/MainWindow.xaml.cs:154-163 | the count is the number of nodes with neither a real left nor a real right child |
| MainWindow.LeavesAreLeafIds | BinaryTreeTraversal/MainWindow.xaml.cs:155-163 | on records spelling a tree, the counted nodes are exactly the tree's leaves |
| RelationshipNetwork.RelationshipGraph.CalculateRelativity | RelationshipNetwork/MainWindow.xaml.cs:325-346 | every node's label becomes `Relativity`: -2 for the target, -1 for its neighbours, otherwise the number of the target's neighbours adjacent to the node |
| RelationshipNetwork.RelationshipGraph.MarkDirect | RelationshipNetwork/MainWindow.xaml.cs:329-337 | the in-edge and out-edge loops collect exactly the target's neighbours and label each one -1 |
| RelationshipNetwork.RelationshipGraph.CountRelatives | RelationshipNetwork/MainWindow.xaml.cs:338-345 | after the final loop, every node that is neither the target nor direct is counted once per direct node it is adjacent to |
| RelationshipNetwork.RelationshipGraph.CountNeighbours | RelationshipNetwork/MainWindow.xaml.cs:339-344 | one direct node adds one to each of its non-negative neighbours |
| RelationshipNetwork.RelationshipGraph.IncrementAll | RelationshipNetwork/MainWindow.xaml.cs:344-345 | every node of the set goes up by exactly one, and no other label changes |
| RelationshipNetwork.NeighboursSymmetric | RelationshipNetwork/MainWindow.xaml.cs:330-340 | adjacency through in- and out-edges is symmetric |
| RelationshipNetwork.RelativityCountsDirectNeighbours | RelationshipNetwork/MainWindow.xaml.cs:338-345 | a node that is neither the target nor direct gets the number of direct nodes among its own neighbours, each counted once however many edges join them |
| RelationshipNetwork.LabelsInDomain | RelationshipNetwork/MainWindow.xaml.cs:325-346 | a label is -2 exactly for the target and -1 exactly for a direct node. Any other label lies between 0 and the number of direct nodes |
| RelationshipNetwork.HighlightColour | RelationshipNetwork/MainWindow.xaml.cs:240-246 | the colour switch maps -2, -1, 0 and positive labels to black, cyan, gray and yellow, and throws exactly below -2 |
| RelationshipNetwork.HighlightNeverThrows | RelationshipNetwork/MainWindow.xaml.cs:238-247 | after CalculateRelativity the colour switch never reaches its throwing arm |
| SortResult.RowsSound | RelationshipNetwork/SortResultWindow.xaml.cs:15 | every filtered row is the id and positive label of some node |
| SortResult.RowsComplete | RelationshipNetwork/SortResultWindow.xaml.cs:15 | every node with a positive label has its row |
| SortResult.RowsCount | RelationshipNetwork/SortResultWindow.xaml.cs:15 | the filter keeps exactly one row per node with a positive label |
| SortResult.Sort | RelationshipNetwork/SortResultWindow.xaml.cs:16 | the in-place sort leaves relativity non-increasing and is a permutation of the rows |
| SortResult.Insert | RelationshipNetwork/SortResultWindow.xaml.cs:16 | one insertion pass extends the sorted prefix by one row and permutes the array |
| SortResult.SortResultWindow | RelationshipNetwork/SortResultWindow.xaml.cs:14-19 | the list is sorted descending and is a permutation of the filtered rows. It holds exactly the rows of the nodes with a positive label, one per node |
| SortResult.RankedAfterRelativity | RelationshipNetwork/SortResultWindow.xaml.cs:15 | on relativity labels, a node gets a row exactly when it is neither the target nor a neighbour of it but is adjacent to a neighbour |

## Left out

- Window chrome, menus, dialogs, the toolbar, animation and colouring, the status bar, the
  `Traversing` flag, the leaf colours of `OnGraphChanged` and the thread drawing are user interface
  and are not modelled. The counts and labels they display are modelled.
- The layer constraints of `BuildBinaryTree` are a layout-library side effect and are not
  modelled. These are `RemoveAllConstraints` and `AddLeftRightConstraint`, and the
  `addLeftRightConstraint` flag.
- `AddLeftRightConstraints` and `CreateIViewerEdge` (`BinaryTreeTraversal/GraphExtensions.cs:143-155`)
  are layout and rendering helpers and are not modelled.
- The left/right decider of the `TreeRoot` getter compares the nodes' current on-screen X
  coordinates, which come from the layout engine and change as nodes move. The model passes it
  as a parameter `decide` to every call that may rebuild the tree, so two builds of the same
  graph may place two children differently.
- The cache invalidation by the viewer's undo/redo event is not modelled, because it is an event
  subscription. Callers of `MainWindow.Window.OnGraphChanged` stand for it.
- Exceptions and their messages become `TreeError` constructors, and a null root becomes `None`.
  `GetTreeRoot`'s unreachable `ArgumentOutOfRangeException` arm has no counterpart.
- `GetTreeRoot` iterates its dictionary in insertion order. The model takes that to be node order.
- Self loops never count in the relativity labels. The graph library keeps them apart from a
  node's `InEdges` and `OutEdges`, and that library is not part of this model.
- LINQ and iterator laziness are modelled eagerly. In the relativity loop every set is computed
  just before its increments, as the lazy `SelectMany` evaluates it. The threaded iterator runs
  after `Threadify`, as the traversal handler runs it.
- MainWindow.Window.TraverseWithThread: it requires that the walk over the threaded records
  ends. An endless walk over stale, cyclic threads is not modelled.
- MainWindow.TraverseWithThreadFrom: it requires that a finite walk `ws`, `we` from the start
  node exists. An endless walk over stale, cyclic threads is not modelled.
- MainWindow.Window.Traverse: it requires that the raw pointers spell the cached tree. The
  recursive traversal over stale pointers that do not is not modelled.
- SortResult.Sort: `List.Sort` is an unstable introspective sort. The model is an insertion sort
  with the same comparator and proves only the promised outcome, so the relative order of rows
  with equal relativity is not pinned down.
- SortResult.Sort: the comparator `b.Relativity - a.Relativity` is computed on unbounded integers.
  32-bit wrap-around cannot occur, because labels are bounded by the node count.
- The threaded traversal handler re-enables the toolbar and clears `Traversing` only after a
  normal end. After a null dereference the background task ends with an exception. The model
  reports the fault and leaves the records threaded, and does not model the toolbar.
