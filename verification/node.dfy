/**
  The search node (class Node) and its cost fields. Nodes live in one list and
  refer to each other by their index in it, as the source does with `nodeList`.
 */
module Nodes {
  import opened Options
  import opened Board
  import opened Heuristic

  /**
    One search node. `pathPos` is the source's `optId`, `onPath` its `ifOpt`;
    the two snapshots are the diagnostic `openList` and `closeList` copies.
   */
  datatype Node = Node(
    state: seq<int>,
    parent: Option<nat>,
    children: seq<nat>,
    g: nat,
    h: nat,
    f: nat,
    onPath: bool,
    pathPos: Option<nat>,
    openSnapshot: seq<nat>,
    closedSnapshot: set<nat>)

  /** `calculateGn`: one more than the parent's g, or 0 without a parent. */
  function CalculateGn(nodes: seq<Node>, parent: Option<nat>): nat
    requires parent.Some? ==> parent.value < |nodes|
  {
    match parent
    case None => 0
    case Some(p) => nodes[p].g + 1
  }

  /** `new Node(state, parent)` followed by `calculateGn`, `calculateHn` and `calculateFn`. */
  function NewNode(nodes: seq<Node>, state: seq<int>, parent: Option<nat>): (n: Node)
    requires IsBoard(state)
    requires parent.Some? ==> parent.value < |nodes|
    ensures n.state == state && n.parent == parent && n.children == []
    ensures parent.None? ==> n.g == 0
    ensures parent.Some? ==> n.g == nodes[parent.value].g + 1
    ensures Tiles(state) && n.h == H(state) && n.f == n.g + n.h
    ensures !n.onPath && n.pathPos.None?
  {
    var g := CalculateGn(nodes, parent);
    var h := H(state);
    Node(state, parent, [], g, h, g + h, false, None, [], {})
  }

  /** A freshly built successor of node cur: one move away, g one more than cur's, f = g + h. */
  predicate IsSuccessorOf(nodes: seq<Node>, cur: nat, n: Node)
    requires cur < |nodes|
  {
    && IsMove(nodes[cur].state, n.state)
    && Tiles(n.state)
    && n.parent == Some(cur)
    && n.children == []
    && n.g == nodes[cur].g + 1
    && n.h == H(n.state)
    && n.f == n.g + n.h
    && !n.onPath
    && n.pathPos.None?
  }

  /** One new child of cur per board. */
  function NodesFor(nodes: seq<Node>, cur: nat, boards: seq<seq<int>>): (r: seq<Node>)
    requires cur < |nodes|
    requires forall k :: 0 <= k < |boards| ==> IsBoard(boards[k])
    ensures |r| == |boards|
    ensures forall k :: 0 <= k < |r| ==> r[k] == NewNode(nodes, boards[k], Some(cur))
  {
    seq(|boards|, k requires 0 <= k < |boards| => NewNode(nodes, boards[k], Some(cur)))
  }

  lemma SuccessorNodes(nodes: seq<Node>, cur: nat, boards: seq<seq<int>>, r: seq<Node>)
    requires cur < |nodes| && IsBoard(nodes[cur].state)
    requires boards == NextBoards(nodes[cur].state)
    requires |r| == |boards|
    requires forall k :: 0 <= k < |r| ==> r[k] == NewNode(nodes, boards[k], Some(cur))
    ensures forall k :: 0 <= k < |r| ==> IsSuccessorOf(nodes, cur, r[k])
    ensures forall s' :: IsMove(nodes[cur].state, s') ==> exists k :: 0 <= k < |r| && r[k].state == s'
    ensures forall a, b :: 0 <= a < b < |r| ==> r[a].state != r[b].state
  {
    forall k | 0 <= k < |r|
      ensures IsSuccessorOf(nodes, cur, r[k]) && r[k].state == boards[k]
    {
      assert IsMove(nodes[cur].state, boards[k]);
    }
    forall s' | IsMove(nodes[cur].state, s')
      ensures exists k :: 0 <= k < |r| && r[k].state == s'
    {
      var k :| 0 <= k < |boards| && boards[k] == s';
      assert r[k].state == s';
    }
  }

  /**
    `generateSuccessors(cur)`: one node per legal blank move of cur's board,
    in the order left, right, up, down.
   */
  function GenerateSuccessors(nodes: seq<Node>, cur: nat): (r: seq<Node>)
    requires cur < |nodes| && IsBoard(nodes[cur].state)
    ensures var z := Blank(nodes[cur].state);
      |r| == (if z == 4 then 4 else if IsCorner(z) then 2 else 3)
    ensures forall k :: 0 <= k < |r| ==> IsSuccessorOf(nodes, cur, r[k])
    ensures forall k :: 0 <= k < |r| ==> IsBoard(r[k].state) && Blank(r[k].state) == BlankTargets(Blank(nodes[cur].state))[k]
    ensures forall s' :: IsMove(nodes[cur].state, s') ==> exists k :: 0 <= k < |r| && r[k].state == s'
    ensures forall a, b :: 0 <= a < b < |r| ==> r[a].state != r[b].state
  {
    var boards := NextBoards(nodes[cur].state);
    var r := NodesFor(nodes, cur, boards);
    SuccessorNodes(nodes, cur, boards, r);
    r
  }
}
