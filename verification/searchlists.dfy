/**
  The global state of the search: the node list (`nodeList`), the open list
  (`globalOpenList`), the closed set (`globalCloseList`) and the board index
  (`stateMap`), gathered into one record, together with the invariants the
  search keeps on them.
 */
module SearchLists {
  import opened Options
  import opened Board
  import opened OpenList
  import opened Nodes

  datatype SearchState = SearchState(
    nodes: seq<Node>,
    open: seq<nat>,
    closed: set<nat>,
    index: map<seq<int>, nat>)

  /** The comparator of `insertIntoOpenList`: an index is ordered by its node's f. */
  function FKey(nodes: seq<Node>): nat -> int {
    (j: nat) => if j < |nodes| then nodes[j].f as int else 0
  }

  /** `insertIntoOpenList(i)`: push i, then stable-sort the whole list by f. */
  function InsertIntoOpen(open: seq<nat>, i: nat, nodes: seq<Node>): (r: seq<nat>)
    ensures multiset(r) == multiset(open) + multiset{i}
    ensures SortedBy(r, FKey(nodes))
    ensures SameRuns(r, open + [i], FKey(nodes))
  {
    StableSort(open + [i], FKey(nodes))
  }

  /** Node lists that agree on every f order any list of indices alike. */
  lemma SameKeysSorted(s: seq<nat>, a: seq<Node>, b: seq<Node>)
    requires |a| == |b| && forall i :: 0 <= i < |a| ==> a[i].f == b[i].f
    requires SortedBy(s, FKey(a))
    ensures SortedBy(s, FKey(b))
  {
    forall i, j | 0 <= i < j < |s|
      ensures FKey(b)(s[i]) <= FKey(b)(s[j])
    {
      assert FKey(a)(s[i]) <= FKey(a)(s[j]);
    }
  }

  /** No entry occurs twice. */
  predicate NoDup(s: seq<nat>) {
    forall x :: x in s ==> multiset(s)[x] == 1
  }

  /** `children.filter(child => child !== x)`. */
  function Without(s: seq<nat>, x: nat): (r: seq<nat>)
    ensures multiset(r) == multiset(s)[x := 0]
    ensures forall y :: y in r <==> y in s && y != x
  {
    if |s| == 0 then []
    else
      assert s == [s[0]] + s[1..];
      (if s[0] == x then [] else [s[0]]) + Without(s[1..], x)
  }

  /**
    A node holds a board and f = g + h, and is not marked: every node starts
    with `ifOpt` false and `optId` null, and only `constructOptimalPath`,
    which ends the search, sets them.
   */
  predicate NodeOk(n: Node) {
    IsBoard(n.state) && n.f == n.g + n.h && !n.onPath && n.pathPos.None?
  }

  predicate NodesOk(nodes: seq<Node>) {
    forall i :: 0 <= i < |nodes| ==> NodeOk(nodes[i])
  }

  /** `stateMap` holds every node's board, at that node's index, and nothing else. */
  predicate IndexExact(nodes: seq<Node>, index: map<seq<int>, nat>) {
    && (forall s :: s in index ==> index[s] < |nodes| && nodes[index[s]].state == s)
    && (forall i :: 0 <= i < |nodes| ==> nodes[i].state in index && index[nodes[i].state] == i)
  }

  /**
    Open holds existing nodes, once each, none of them closed; closed holds
    existing nodes; and every node is in one of the two.
   */
  predicate ListsOk(st: SearchState) {
    && (forall j :: 0 <= j < |st.open| ==> st.open[j] < |st.nodes| && st.open[j] !in st.closed)
    && NoDup(st.open)
    && (forall c :: c in st.closed ==> c < |st.nodes|)
    && (forall i :: 0 <= i < |st.nodes| ==> i in st.open || i in st.closed)
  }

  /** Node i has a parent, one move away, with a smaller g. */
  predicate ParentOk(nodes: seq<Node>, i: nat)
    requires i < |nodes|
  {
    && nodes[i].parent.Some?
    && nodes[i].parent.value < |nodes|
    && nodes[nodes[i].parent.value].g < nodes[i].g
    && IsMove(nodes[nodes[i].parent.value].state, nodes[i].state)
  }

  /**
    Node 0 is the root: no parent and g = 0. Every other node has a parent one
    move away whose g is smaller. (Not g = parent's g + 1: a relaxed node's
    descendants keep their old g.)
   */
  predicate TreeLinks(nodes: seq<Node>) {
    && |nodes| > 0
    && nodes[0].parent.None?
    && nodes[0].g == 0
    && (forall i :: 0 < i < |nodes| ==> ParentOk(nodes, i))
  }

  /** The children lists are exactly the inverse of the parent links, without repeats. */
  predicate ChildrenExact(nodes: seq<Node>) {
    && (forall q, c :: 0 <= q < |nodes| && c in nodes[q].children ==> c < |nodes|)
    && (forall q, c :: 0 <= q < |nodes| && 0 <= c < |nodes| ==>
          (c in nodes[q].children <==> nodes[c].parent == Some(q)))
    && (forall q :: 0 <= q < |nodes| ==> NoDup(nodes[q].children))
  }

  /** A closed node never holds the goal: it was tested when it left open. */
  predicate ClosedNotGoal(st: SearchState)
    requires forall c :: c in st.closed ==> c < |st.nodes|
  {
    forall c :: c in st.closed ==> st.nodes[c].state != Goal
  }

  /** Everything the search keeps at every point of an expansion. */
  predicate Core(st: SearchState) {
    && NodesOk(st.nodes)
    && IndexExact(st.nodes, st.index)
    && ListsOk(st)
    && TreeLinks(st.nodes)
    && ChildrenExact(st.nodes)
    && ClosedNotGoal(st)
  }

  /**
    Every board one move from a closed node outside skip is indexed: a closed
    node has been expanded. During the expansion of cur, skip is {cur}.
   */
  ghost predicate ExpandedBut(st: SearchState, skip: set<nat>)
    requires forall c :: c in st.closed ==> c < |st.nodes|
  {
    forall c, s' :: c in st.closed && c !in skip && IsMove(st.nodes[c].state, s') ==> s' in st.index
  }

  /** The invariant of the main loop of `aStarSearch`. */
  ghost predicate Valid(st: SearchState) {
    Core(st) && ExpandedBut(st, {})
  }

  /**
    st' extends st: no node is removed and no board changes, and every indexed
    board stays indexed at the same place.
   */
  predicate Extends(st: SearchState, st': SearchState) {
    && |st.nodes| <= |st'.nodes|
    && (forall i :: 0 <= i < |st.nodes| ==> st'.nodes[i].state == st.nodes[i].state)
    && (forall s :: s in st.index ==> s in st'.index && st'.index[s] == st.index[s])
  }

  /** Facts about closed nodes survive growth that closes nothing new. */
  lemma ExtendsKeepsClosed(st: SearchState, r: SearchState, skip: set<nat>)
    requires forall c :: c in st.closed ==> c < |st.nodes|
    requires Extends(st, r) && r.closed <= st.closed
    ensures forall c :: c in r.closed ==> c < |r.nodes|
    ensures ClosedNotGoal(st) ==> ClosedNotGoal(r)
    ensures ExpandedBut(st, skip) ==> ExpandedBut(r, skip)
  {
  }

  lemma ExtendsTrans(a: SearchState, b: SearchState, c: SearchState)
    requires Extends(a, b) && Extends(b, c)
    ensures Extends(a, c)
  {
    forall i | 0 <= i < |a.nodes|
      ensures c.nodes[i].state == a.nodes[i].state
    {
      assert c.nodes[i].state == b.nodes[i].state;
    }
  }
}
