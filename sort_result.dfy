/**
 * The SortResultWindow constructor, which appears verbatim in both projects: one row per
 * node with a positive relativity label, in graph order, then sorted in place so that
 * relativity does not increase along the list.
 */
module SortResult {
  import opened TreeRoot
  import opened RelationshipNetwork

  /** One row of the result list: a node's Id and its relativity label. */
  datatype ListRow = ListRow(name: string, relativity: int)

  /** The nodes whose label is positive. */
  function Ranked(labels: seq<int>): set<nat> {
    RankedBelow(labels, |labels|)
  }

  /** The nodes before `n` whose label is positive. */
  function RankedBelow(labels: seq<int>, n: nat): set<nat>
    requires n <= |labels|
  {
    set x | 0 <= x < n && labels[x] > 0
  }

  /**
   * The Where/Select/ToList filter over the first `n` nodes: the rows of the nodes whose
   * label is positive, in node order, each carrying the node's Id and label.
   */
  function Rows(ids: seq<string>, labels: seq<int>, n: nat): seq<ListRow>
    requires |ids| == |labels| && n <= |labels|
  {
    if n == 0 then []
    else Rows(ids, labels, n - 1) + if labels[n - 1] > 0 then [ListRow(ids[n - 1], labels[n - 1])] else []
  }

  /** Every row is the Id and the positive label of one of the first `n` nodes. */
  lemma {:induction false} RowsSound(ids: seq<string>, labels: seq<int>, n: nat)
    requires |ids| == |labels| && n <= |labels|
    ensures forall r | r in Rows(ids, labels, n) :: r.relativity > 0
    ensures forall r | r in Rows(ids, labels, n) :: exists x | 0 <= x < n :: r == ListRow(ids[x], labels[x])
  {
    if n > 0 {
      RowsSound(ids, labels, n - 1);
    }
  }

  /** Every one of the first `n` nodes with a positive label has its row. */
  lemma {:induction false} RowsComplete(ids: seq<string>, labels: seq<int>, n: nat)
    requires |ids| == |labels| && n <= |labels|
    ensures forall x | 0 <= x < n && labels[x] > 0 :: ListRow(ids[x], labels[x]) in Rows(ids, labels, n)
  {
    if n > 0 {
      RowsComplete(ids, labels, n - 1);
    }
  }

  /** The filter keeps one row per node with a positive label. */
  lemma {:induction false} RowsCount(ids: seq<string>, labels: seq<int>, n: nat)
    requires |ids| == |labels| && n <= |labels|
    ensures |Rows(ids, labels, n)| == |RankedBelow(labels, n)|
  {
    if n > 0 {
      RowsCount(ids, labels, n - 1);
      var front, ranked := Rows(ids, labels, n - 1), RankedBelow(labels, n - 1);
      if labels[n - 1] > 0 {
        assert Rows(ids, labels, n) == front + [ListRow(ids[n - 1], labels[n - 1])];
        assert RankedBelow(labels, n) == ranked + {n - 1};
        assert n - 1 !in ranked;
      } else {
        assert Rows(ids, labels, n) == front;
        assert RankedBelow(labels, n) == ranked;
      }
    }
  }

  /** The comparator the list is sorted with: negative when `a` belongs before `b`. */
  function Compare(a: ListRow, b: ListRow): int {
    b.relativity - a.relativity
  }

  /** Relativity does not increase along `s`. */
  predicate Descending(s: seq<ListRow>) {
    forall k, l | 0 <= k < l < |s| :: s[k].relativity >= s[l].relativity
  }

  /** The first `i` rows of `a` are in descending order. */
  ghost predicate SortedBelow(a: array<ListRow>, i: int)
    reads a
    requires 0 <= i <= a.Length
  {
    forall k, l | 0 <= k < l < i :: a[k].relativity >= a[l].relativity
  }

  /**
   * List.Sort with the descending comparator, as an insertion sort: each row is swapped
   * towards the front while the comparator puts it before its neighbour.
   */
  method Sort(a: array<ListRow>)
    modifies a
    ensures Descending(a[..])
    ensures multiset(a[..]) == multiset(old(a[..]))
  {
    var i := 0;
    while i < a.Length
      invariant 0 <= i <= a.Length
      invariant SortedBelow(a, i)
      invariant multiset(a[..]) == multiset(old(a[..]))
    {
      Insert(a, i);
      i := i + 1;
    }
  }

  /** One pass of the sort: row `i` moves towards the front past every row of lower relativity. */
  method Insert(a: array<ListRow>, i: int)
    requires 0 <= i < a.Length && SortedBelow(a, i)
    modifies a
    ensures SortedBelow(a, i + 1)
    ensures multiset(a[..]) == multiset(old(a[..]))
  {
    var j := i;
    while j > 0 && Compare(a[j - 1], a[j]) > 0
      invariant 0 <= j <= i
      invariant forall k, l | 0 <= k < l <= i && k != j && l != j :: a[k].relativity >= a[l].relativity
      invariant forall l | j < l <= i :: a[j].relativity >= a[l].relativity
      invariant multiset(a[..]) == multiset(old(a[..]))
    {
      Swap(a, j);
      j := j - 1;
    }
  }

  /** Rows `j - 1` and `j` change places. */
  method Swap(a: array<ListRow>, j: int)
    requires 0 < j < a.Length
    modifies a
    ensures a[..] == old(a[..])[j - 1 := old(a[j])][j := old(a[j - 1])]
    ensures multiset(a[..]) == multiset(old(a[..]))
  {
    a[j - 1], a[j] := a[j], a[j - 1];
  }

  /**
   * The constructor's list: the filtered rows, sorted. It holds exactly one row per node
   * with a positive label, and relativity does not increase along it.
   */
  method SortResultWindow(ids: seq<string>, labels: seq<int>) returns (list: seq<ListRow>)
    requires |ids| == |labels|
    ensures Descending(list) && multiset(list) == multiset(Rows(ids, labels, |labels|))
    ensures forall r | r in list :: r.relativity > 0 && exists x | 0 <= x < |labels| :: r == ListRow(ids[x], labels[x])
    ensures forall x | 0 <= x < |labels| && labels[x] > 0 :: ListRow(ids[x], labels[x]) in list
    ensures |list| == |Ranked(labels)|
  {
    var rows := Rows(ids, labels, |labels|);
    RowsSound(ids, labels, |labels|);
    RowsComplete(ids, labels, |labels|);
    RowsCount(ids, labels, |labels|);
    var a := new ListRow[|rows|](i requires 0 <= i < |rows| => rows[i]);
    assert a[..] == rows;
    Sort(a);
    list := a[..];
    assert |list| == |multiset(list)| == |multiset(rows)| == |rows|;
    forall r | r in list
      ensures r in rows
    {
      assert r in multiset(list);
    }
    forall r | r in rows
      ensures r in list
    {
      assert r in multiset(rows);
    }
  }

  /**
   * On labels from CalculateRelativity, a node gets a row exactly when it is neither the
   * target nor a direct node but is adjacent to at least one direct node.
   */
  lemma RankedAfterRelativity(n: nat, edges: seq<Edge>, target: nat, x: nat)
    requires x < n
    ensures x in Ranked(Relativity(n, edges, target)) <==>
      x != target && x !in Neighbours(edges, target) && Neighbours(edges, target) * Neighbours(edges, x) != {}
  {
    if x != target && x !in Neighbours(edges, target) {
      RelativityCountsDirectNeighbours(n, edges, target, x);
    }
  }
}
