/**
  `aStarSearch` and the root initialisation before it: pop the head of open,
  stop with the reconstructed path if it holds the goal, otherwise close it,
  record the snapshots and run the successor loop.
 */
module Search {
  import opened Options
  import opened Board
  import opened Heuristic
  import opened Nodes
  import opened Path
  import opened SearchLists
  import opened Expansion
  import opened Generator

  /** The root node in the list, open holding only it, nothing closed, its board indexed. */
  function Init(start: seq<int>): (st: SearchState)
    requires IsBoard(start)
    ensures Valid(st)
    ensures |st.nodes| == 1 && st.nodes[0].state == start
    ensures st.nodes[0].parent.None? && st.nodes[0].g == 0 && st.nodes[0].h == H(start)
    ensures st.nodes[0].f == H(start)
    ensures st.open == [0] && st.closed == {} && st.index == map[start := 0]
  {
    var root := NewNode([], start, None);
    var open := InsertIntoOpen([], 0, [root]);
    SingleEntry(open, 0);
    var st := SearchState([root], open, {}, map[start := 0]);
    InitValid(st);
    st
  }

  lemma SingleEntry(s: seq<nat>, x: nat)
    requires multiset(s) == multiset{x}
    ensures s == [x]
  {
    assert |s| == 1;
    assert s[0] in multiset(s);
  }

  /** A single root node with nothing closed satisfies the invariant. */
  lemma InitValid(st: SearchState)
    requires |st.nodes| == 1 && NodeOk(st.nodes[0])
    requires st.nodes[0].parent.None? && st.nodes[0].g == 0 && st.nodes[0].children == []
    requires st.open == [0] && st.closed == {} && st.index == map[st.nodes[0].state := 0]
    ensures Valid(st)
  {
    assert NodesOk(st.nodes);
    InitIndex(st.nodes, st.index);
    InitLists(st);
    assert TreeLinks(st.nodes);
    InitChildren(st.nodes);
  }

  lemma InitIndex(nodes: seq<Node>, index: map<seq<int>, nat>)
    requires |nodes| == 1 && index == map[nodes[0].state := 0]
    ensures IndexExact(nodes, index)
  {
  }

  lemma InitLists(st: SearchState)
    requires |st.nodes| == 1 && st.open == [0] && st.closed == {}
    ensures ListsOk(st)
  {
    assert multiset(st.open)[0] == 1;
  }

  lemma InitChildren(nodes: seq<Node>)
    requires |nodes| == 1 && nodes[0].parent.None? && nodes[0].children == []
    ensures ChildrenExact(nodes)
  {
  }

  /** What one pass of the main loop yields. */
  datatype Outcome =
    | Continue(st: SearchState)
    | Found(path: seq<nat>, nodes: seq<Node>)
    | Exhausted

  lemma TreeDescends(nodes: seq<Node>)
    requires TreeLinks(nodes)
    ensures LinksDescend(nodes)
  {
    forall i | 0 <= i < |nodes| && nodes[i].parent.Some?
      ensures nodes[i].parent.value < |nodes| && nodes[nodes[i].parent.value].g < nodes[i].g
    {
      assert i != 0;
      assert ParentOk(nodes, i);
    }
  }

  /** The state after `shift` and `globalCloseList.add`, with cur's two snapshots recorded. */
  function Close(st: SearchState): (r: SearchState)
    requires |st.open| > 0 && st.open[0] < |st.nodes|
    ensures r.open == st.open[1..] && r.closed == st.closed + {st.open[0]} && r.index == st.index
    ensures |r.nodes| == |st.nodes|
    ensures r.nodes[st.open[0]] ==
      st.nodes[st.open[0]].(openSnapshot := st.open[1..], closedSnapshot := st.closed + {st.open[0]})
    ensures forall i :: 0 <= i < |st.nodes| && i != st.open[0] ==> r.nodes[i] == st.nodes[i]
  {
    var cur := st.open[0];
    var open' := st.open[1..];
    var closed' := st.closed + {cur};
    SearchState(st.nodes[cur := st.nodes[cur].(openSnapshot := open', closedSnapshot := closed')], open', closed', st.index)
  }

  /** Closing a node that does not hold the goal keeps every invariant; only it awaits expansion. */
  lemma CloseKeepsCore(st: SearchState)
    requires Valid(st) && |st.open| > 0
    requires st.nodes[st.open[0]].state != Goal
    ensures Core(Close(st)) && Extends(st, Close(st))
    ensures ExpandedBut(Close(st), {st.open[0]})
  {
    var r := Close(st);
    assert st.open[0] in st.open;
    CloseSameLinks(st);
    SameLinksKeepNodes(st.nodes, r.nodes);
    SameLinksKeepIndex(st.nodes, r.nodes, st.index);
    SameLinksKeepTree(st.nodes, r.nodes);
    SameLinksKeepChildren(st.nodes, r.nodes);
    CloseKeepsLists(st);
    CloseKeepsClosed(st);
  }

  /** Two node lists that agree on every field the invariants read. */
  predicate SameLinks(a: seq<Node>, b: seq<Node>) {
    && |a| == |b|
    && (forall i :: 0 <= i < |a| ==>
          && b[i].state == a[i].state && b[i].parent == a[i].parent
          && b[i].children == a[i].children
          && b[i].g == a[i].g && b[i].h == a[i].h && b[i].f == a[i].f)
  }

  /** Two node lists that agree on the `ifOpt` and `optId` of every node. */
  predicate SameMarks(a: seq<Node>, b: seq<Node>)
    requires |a| == |b|
  {
    forall i :: 0 <= i < |a| ==> b[i].onPath == a[i].onPath && b[i].pathPos == a[i].pathPos
  }

  lemma CloseSameLinks(st: SearchState)
    requires |st.open| > 0 && st.open[0] < |st.nodes|
    ensures SameLinks(st.nodes, Close(st).nodes) && SameMarks(st.nodes, Close(st).nodes)
  {
  }

  lemma SameLinksKeepNodes(a: seq<Node>, b: seq<Node>)
    requires SameLinks(a, b) && SameMarks(a, b) && NodesOk(a)
    ensures NodesOk(b)
  {
    forall i | 0 <= i < |b|
      ensures NodeOk(b[i])
    {
      assert NodeOk(a[i]);
    }
  }

  lemma SameLinksKeepIndex(a: seq<Node>, b: seq<Node>, index: map<seq<int>, nat>)
    requires SameLinks(a, b) && IndexExact(a, index)
    ensures IndexExact(b, index)
  {
  }

  lemma SameLinksKeepTree(a: seq<Node>, b: seq<Node>)
    requires SameLinks(a, b) && TreeLinks(a)
    ensures TreeLinks(b)
  {
    forall i | 0 < i < |b|
      ensures ParentOk(b, i)
    {
      assert ParentOk(a, i);
      var p := a[i].parent.value;
      assert b[p].g == a[p].g && b[p].state == a[p].state;
    }
  }

  lemma SameLinksKeepChildren(a: seq<Node>, b: seq<Node>)
    requires SameLinks(a, b) && ChildrenExact(a)
    ensures ChildrenExact(b)
  {
  }

  /** The newly closed node is not the goal, and only it awaits expansion. */
  lemma CloseKeepsClosed(st: SearchState)
    requires |st.open| > 0 && st.open[0] < |st.nodes|
    requires forall c :: c in st.closed ==> c < |st.nodes|
    requires ClosedNotGoal(st) && ExpandedBut(st, {})
    requires st.nodes[st.open[0]].state != Goal
    ensures forall c :: c in Close(st).closed ==> c < |Close(st).nodes|
    ensures ClosedNotGoal(Close(st)) && ExpandedBut(Close(st), {st.open[0]})
    ensures Extends(st, Close(st))
  {
    var r := Close(st);
    var cur := st.open[0];
    forall c | c in r.closed
      ensures c < |r.nodes| && r.nodes[c].state == st.nodes[c].state
      ensures c != cur ==> c in st.closed
    {
    }
    ExpandedKept(st, r, {cur});
  }

  /**
    Boards one move from a closed node stay indexed when the index is kept and
    every closed node outside skip was closed before, holding the same board.
   */
  lemma ExpandedKept(st: SearchState, r: SearchState, skip: set<nat>)
    requires forall c :: c in st.closed ==> c < |st.nodes|
    requires forall c :: c in r.closed ==> c < |r.nodes|
    requires forall c :: c in r.closed && c !in skip ==>
      c in st.closed && r.nodes[c].state == st.nodes[c].state
    requires r.index == st.index && ExpandedBut(st, {})
    ensures ExpandedBut(r, skip)
  {
    forall c, s' | c in r.closed && c !in skip && IsMove(r.nodes[c].state, s')
      ensures s' in r.index
    {
      assert IsMove(st.nodes[c].state, s');
    }
  }

  lemma CloseKeepsLists(st: SearchState)
    requires ListsOk(st) && |st.open| > 0 && st.open[0] < |st.nodes|
    ensures ListsOk(Close(st))
  {
    var cur := st.open[0];
    var r := Close(st);
    assert st.open == [cur] + r.open;
    assert multiset(st.open) == multiset{cur} + multiset(r.open);
    assert cur !in r.open by {
      assert cur in st.open;
      assert multiset(st.open)[cur] == 1;
    }
    forall x | x in r.open
      ensures x < |r.nodes| && x !in r.closed && multiset(r.open)[x] == 1
    {
      assert x in st.open;
    }
  }

  /** A closed node all of whose moves are indexed no longer awaits expansion. */
  lemma ExpansionDone(r: SearchState, cur: nat)
    requires forall c :: c in r.closed ==> c < |r.nodes|
    requires cur < |r.nodes| && ExpandedBut(r, {cur})
    requires forall s' :: IsMove(r.nodes[cur].state, s') ==> s' in r.index
    ensures ExpandedBut(r, {})
  {
  }

  /** The moves from cur are all indexed once every generated successor is. */
  lemma SuccessorsIndexed(nodes: seq<Node>, cur: nat, succs: seq<Node>, r: SearchState)
    requires cur < |nodes| && cur < |r.nodes| && r.nodes[cur].state == nodes[cur].state
    requires forall s' :: IsMove(nodes[cur].state, s') ==> exists k :: 0 <= k < |succs| && succs[k].state == s'
    requires AllIndexed(r, succs)
    ensures forall s' :: IsMove(r.nodes[cur].state, s') ==> s' in r.index
  {
    forall s' | IsMove(r.nodes[cur].state, s')
      ensures s' in r.index
    {
      var k :| 0 <= k < |succs| && succs[k].state == s';
    }
  }

  /**
    One pass of the `while` loop of `aStarSearch`: Exhausted exactly when open
    is empty; Found when the head of open holds the goal, with the path from
    the root to it; otherwise the head is closed and expanded, and every
    invariant still holds.
   */
  function Step(st: SearchState): (r: Outcome)
    requires Valid(st)
    ensures r.Exhausted? <==> |st.open| == 0
    ensures r.Found? ==> |st.open| > 0 && st.nodes[st.open[0]].state == Goal
    ensures r.Found? ==> Marked(st.nodes, st.open[0], r.path, r.nodes)
    ensures r.Continue? ==> Valid(r.st) && Extends(st, r.st)
    ensures r.Continue? ==> st.nodes[st.open[0]].state != Goal && st.open[0] in r.st.closed
  {
    if |st.open| == 0 then Exhausted
    else
      var cur := st.open[0];
      HeadIsBoard(st);
      IsGoalIff(st.nodes[cur].state);
      if IsGoal(st.nodes[cur].state) then Finish(st.nodes, cur)
      else Continue(Advance(st))
  }

  /** The head of open is an existing node holding a board. */
  lemma HeadIsBoard(st: SearchState)
    requires NodesOk(st.nodes) && ListsOk(st) && |st.open| > 0
    ensures st.open[0] < |st.nodes| && IsBoard(st.nodes[st.open[0]].state)
  {
    assert NodeOk(st.nodes[st.open[0]]);
  }

  /**
    path is the root-to-k chain of the tree, and marked is nodes with every
    entry of path marked with its position and nothing else changed.
   */
  predicate Marked(nodes: seq<Node>, k: nat, path: seq<nat>, marked: seq<Node>) {
    && LinksDescend(nodes)
    && IsChainTo(nodes, path, k)
    && |marked| == |nodes|
    && (forall j :: 0 <= j < |path| ==>
          marked[path[j]] == nodes[path[j]].(onPath := true, pathPos := Some(j)))
    && (forall n :: 0 <= n < |nodes| && n !in path ==> marked[n] == nodes[n])
  }

  /** The `if` branch of the loop: `constructOptimalPath` on the node holding the goal. */
  function Finish(nodes: seq<Node>, k: nat): (r: Outcome)
    requires TreeLinks(nodes) && k < |nodes|
    ensures r.Found? && Marked(nodes, k, r.path, r.nodes)
  {
    TreeDescends(nodes);
    var rec := ConstructOptimalPath(nodes, k);
    Found(rec.path, rec.nodes)
  }

  /**
    The `else` branch of the loop: shift the head off open, close it, and
    visit each of its successors; every invariant holds again afterwards.
   */
  function Advance(st: SearchState): (r: SearchState)
    requires Valid(st) && |st.open| > 0
    requires st.nodes[st.open[0]].state != Goal
    ensures Valid(r) && Extends(st, r)
    ensures st.open[0] in r.closed
  {
    var cur := st.open[0];
    var st1 := Close(st);
    CloseKeepsCore(st);
    assert NodeOk(st1.nodes[cur]);
    var succs := GenerateSuccessors(st1.nodes, cur);
    var r := Expand(st1, cur, succs);
    SuccessorsIndexed(st1.nodes, cur, succs, r);
    ExpansionDone(r, cur);
    ExtendsTrans(st, st1, r);
    r
  }

  /** The boards along a list of node indices. */
  function Boards(nodes: seq<Node>, path: seq<nat>): (ps: seq<seq<int>>)
    requires forall i :: 0 <= i < |path| ==> path[i] < |nodes|
    ensures |ps| == |path|
    ensures forall i :: 0 <= i < |path| ==> ps[i] == nodes[path[i]].state
  {
    seq(|path|, i requires 0 <= i < |path| => nodes[path[i]].state)
  }

  /**
    What a returned `optList` is: it starts at the root, ends at a node holding
    the goal, each entry is the parent of the next, the boards along it form a
    walk of legal moves from start, no shorter than the estimate of start, and
    every entry is marked with its position while every other node stays
    unmarked; and the node list is still the search tree.
   */
  ghost predicate SolutionPath(nodes: seq<Node>, path: seq<nat>, start: seq<int>) {
    && |path| >= 1
    && (forall i :: 0 <= i < |path| ==> path[i] < |nodes|)
    && path[0] == 0
    && nodes[path[|path| - 1]].state == Goal
    && (forall i :: 0 < i < |path| ==> nodes[path[i]].parent == Some(path[i - 1]))
    && Boards(nodes, path)[0] == start
    && IsWalk(Boards(nodes, path))
    && Tiles(start) && H(start) <= |path| - 1
    && (forall j :: 0 <= j < |path| ==> nodes[path[j]].onPath && nodes[path[j]].pathPos == Some(j))
    && (forall n :: 0 <= n < |nodes| && n !in path ==> !nodes[n].onPath && nodes[n].pathPos.None?)
    && TreeLinks(nodes) && ChildrenExact(nodes)
  }

  /** The chain Step returns, read in the marked node list, is a solution path. */
  lemma FoundIsSolution(base: seq<Node>, nodes: seq<Node>, path: seq<nat>, k: nat)
    requires TreeLinks(base) && ChildrenExact(base) && NodesOk(base)
    requires Marked(base, k, path, nodes) && base[k].state == Goal
    ensures SolutionPath(nodes, path, base[0].state)
  {
    assert NodeOk(base[0]);
    MarkedSameLinks(base, k, path, nodes);
    SameLinksKeepTree(base, nodes);
    SameLinksKeepChildren(base, nodes);
    forall n | 0 <= n < |nodes| && n !in path
      ensures !nodes[n].onPath && nodes[n].pathPos.None?
    {
      assert NodeOk(base[n]);
    }
    ChainWalk(base, path, k);
    BoardsSame(base, nodes, path);
    var ps := Boards(nodes, path);
    assert ps[|ps| - 1] == Goal;
    Admissible(ps);
  }

  /** Marking the path changes no field the tree invariants read. */
  lemma MarkedSameLinks(nodes: seq<Node>, k: nat, path: seq<nat>, marked: seq<Node>)
    requires Marked(nodes, k, path, marked)
    ensures SameLinks(nodes, marked)
  {
    forall i | 0 <= i < |nodes|
      ensures marked[i].state == nodes[i].state && marked[i].parent == nodes[i].parent
      ensures marked[i].children == nodes[i].children
      ensures marked[i].g == nodes[i].g && marked[i].h == nodes[i].h && marked[i].f == nodes[i].f
    {
      if i in path {
        var j :| 0 <= j < |path| && path[j] == i;
      }
    }
  }

  /** Only the root has no parent. */
  lemma RootParentless(nodes: seq<Node>, i: nat)
    requires TreeLinks(nodes) && i < |nodes| && nodes[i].parent.None?
    ensures i == 0
  {
    assert 0 < i ==> ParentOk(nodes, i);
  }

  /** A chain in the tree starts at the root, and its boards form a walk. */
  lemma ChainWalk(nodes: seq<Node>, path: seq<nat>, k: nat)
    requires TreeLinks(nodes) && IsChainTo(nodes, path, k)
    ensures path[0] == 0 && IsWalk(Boards(nodes, path))
  {
    RootParentless(nodes, path[0]);
    var ps := Boards(nodes, path);
    forall j | 0 < j < |ps|
      ensures IsMove(ps[j - 1], ps[j])
    {
      var c := path[j];
      assert nodes[c].parent == Some(path[j - 1]);
      assert c != 0;
      assert ParentOk(nodes, c);
    }
  }

  lemma BoardsSame(a: seq<Node>, b: seq<Node>, path: seq<nat>)
    requires |a| == |b| && forall i :: 0 <= i < |path| ==> path[i] < |a|
    requires forall i :: 0 <= i < |path| ==> b[path[i]].state == a[path[i]].state
    ensures Boards(a, path) == Boards(b, path)
  {
  }

  /** How the search ends. */
  datatype Result =
    | Solved(path: seq<nat>, nodes: seq<Node>)
    | NoSolution(st: SearchState)
    | OutOfFuel(st: SearchState)

  /** The `while` loop of `aStarSearch`, for at most fuel passes. */
  function Run(st: SearchState, fuel: nat): (r: Result)
    requires Valid(st)
    ensures r.Solved? ==> SolutionPath(r.nodes, r.path, st.nodes[0].state)
    ensures r.NoSolution? ==> Valid(r.st) && r.st.open == [] && r.st.nodes[0].state == st.nodes[0].state
    ensures r.OutOfFuel? ==> Valid(r.st) && r.st.nodes[0].state == st.nodes[0].state
    decreases fuel
  {
    if fuel == 0 then OutOfFuel(st)
    else
      var o := Step(st);
      match o
      case Exhausted => NoSolution(st)
      case Found(path, nodes) =>
        FoundIsSolution(st.nodes, nodes, path, st.open[0]);
        Solved(path, nodes)
      case Continue(st') =>
        Run(st', fuel - 1)
  }

  /**
    Completeness: when open runs empty every node is closed, so every board
    reachable from the root is indexed and closed, and none of them is the
    goal.
   */
  lemma ExhaustedUnreachable(st: SearchState)
    requires Valid(st) && st.open == []
    ensures !Reaches(st.nodes[0].state, Goal)
  {
    AllClosed(st);
    forall ps | |ps| > 0 && IsWalk(ps) && ps[0] == st.nodes[0].state
      ensures ps[|ps| - 1] != Goal
    {
      WalkIndexed(st, ps, |ps| - 1);
      var c := st.index[ps[|ps| - 1]];
      assert st.nodes[c].state == ps[|ps| - 1];
    }
  }

  /** With open empty, every node is closed. */
  lemma AllClosed(st: SearchState)
    requires ListsOk(st) && st.open == []
    ensures forall n :: 0 <= n < |st.nodes| ==> n in st.closed
  {
  }

  /**
    When every node is closed and every closed node has been expanded, each
    board along a walk from an indexed board is indexed too.
   */
  lemma {:induction false} WalkIndexed(st: SearchState, ps: seq<seq<int>>, i: nat)
    requires IndexExact(st.nodes, st.index)
    requires forall c :: c in st.closed ==> c < |st.nodes|
    requires forall n :: 0 <= n < |st.nodes| ==> n in st.closed
    requires ExpandedBut(st, {})
    requires |ps| > 0 && IsWalk(ps) && ps[0] in st.index && i < |ps|
    ensures ps[i] in st.index
  {
    if i > 0 {
      WalkIndexed(st, ps, i - 1);
      var c := st.index[ps[i - 1]];
      assert st.nodes[c].state == ps[i - 1];
      assert MoveAt(ps, i);
      assert c in st.closed;
    }
  }

  /** `aStarSearch()` from a fresh root, for at most fuel passes. */
  function AStarSearch(start: seq<int>, fuel: nat): (r: Result)
    requires IsBoard(start)
    ensures r.Solved? ==> SolutionPath(r.nodes, r.path, start)
    ensures r.NoSolution? ==> !Reaches(start, Goal)
  {
    var r := Run(Init(start), fuel);
    if r.NoSolution? then
      ExhaustedUnreachable(r.st);
      r
    else r
  }

  /**
    `minSteps = optList.length - 1`: the number of moves of the returned path.
    None where the source reads `length` of a null result and throws.
   */
  function MinSteps(r: Result): (m: Option<int>)
    ensures m.Some? <==> r.Solved?
    ensures r.Solved? ==> m.value == |r.path| - 1
  {
    if r.Solved? then Some(|r.path| - 1) else None
  }

  /** A found path never has fewer moves than the estimate of the start board, and its boards make that many moves. */
  lemma MinStepsBound(start: seq<int>, fuel: nat)
    requires IsBoard(start)
    ensures Tiles(start)
    ensures var r := AStarSearch(start, fuel);
      r.Solved? ==>
        && MinSteps(r).Some?
        && H(start) <= MinSteps(r).value
        && |Boards(r.nodes, r.path)| == MinSteps(r).value + 1
  {
  }

  /** The page: a generated board and the search on it. */
  datatype Session = Session(start: seq<int>, result: Result)

  /**
    `generateSolvableState` followed by `aStarSearch`. None only when the
    supplied choices run out before a board is drawn.
   */
  function Solve(rand: seq<nat>, fuel: nat): (r: Option<Session>)
    ensures r.Some? ==> IsBoard(r.value.start)
    ensures r.Some? && r.value.result.Solved? ==>
      SolutionPath(r.value.result.nodes, r.value.result.path, r.value.start)
  {
    match GenerateSolvable(rand)
    case None => None
    case Some(start) => Some(Session(start, AStarSearch(start, fuel)))
  }

  /**
    On a generated board the search never reports that there is no solution:
    the shuffle's moves lead back to the goal. So `optList` is never null at
    the `optList.length` that follows the search.
   */
  lemma GeneratedNeverUnsolvable(rand: seq<nat>, fuel: nat)
    requires |rand| >= Moves
    ensures Solve(rand, fuel).Some?
    ensures !Solve(rand, fuel).value.result.NoSolution?
  {
    GenerateFirstAttempt(rand);
    GoalIsBoard();
    ShuffleReachesBack(Goal, rand[..Moves]);
  }
}
