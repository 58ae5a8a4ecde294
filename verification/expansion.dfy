/**
  The body of the successor loop of `aStarSearch`: a successor whose board is
  new is appended to the node list; one whose board is known and which offers
  a strictly smaller g relaxes the known node; any other is dropped.
 */
module Expansion {
  import opened Options
  import opened Board
  import opened OpenList
  import opened Nodes
  import opened SearchLists

  /** The effect of adding successor n of cur as node k = |st.nodes|. */
  predicate AddedNode(st: SearchState, cur: nat, n: Node, r: SearchState)
    requires cur < |st.nodes|
  {
    var k: nat := |st.nodes|;
    && |r.nodes| == k + 1
    && r.nodes[k] == n.(openSnapshot := r.open, closedSnapshot := st.closed)
    && r.nodes[cur] == st.nodes[cur].(children := st.nodes[cur].children + [k])
    && (forall i :: 0 <= i < k && i != cur ==> r.nodes[i] == st.nodes[i])
    && r.index == st.index[n.state := k]
    && r.open == InsertIntoOpen(st.open, k, st.nodes + [n])
    && multiset(r.open) == multiset(st.open) + multiset{k}
    && r.closed == st.closed
  }

  /** The new-board branch of the successor loop. */
  function AddNode(st: SearchState, cur: nat, n: Node): (r: SearchState)
    requires cur < |st.nodes|
    ensures AddedNode(st, cur, n, r)
    ensures SortedBy(r.open, FKey(r.nodes))
  {
    var k: nat := |st.nodes|;
    var nodes1 := st.nodes + [n];
    var open1 := InsertIntoOpen(st.open, k, nodes1);
    var parent := nodes1[cur];
    var nodes2 := nodes1[cur := parent.(children := parent.children + [k])];
    var nodes3 := nodes2[k := n.(openSnapshot := open1, closedSnapshot := st.closed)];
    SameKeysSorted(open1, nodes1, nodes3);
    SearchState(nodes3, open1, st.closed, st.index[n.state := k])
  }

  /** Adding a successor with a new board keeps every invariant. */
  lemma AddNodeKeepsCore(st: SearchState, cur: nat, n: Node)
    requires Core(st) && cur < |st.nodes|
    requires IsSuccessorOf(st.nodes, cur, n) && n.state !in st.index
    ensures Core(AddNode(st, cur, n))
    ensures Extends(st, AddNode(st, cur, n))
    ensures ExpandedBut(st, {cur}) ==> ExpandedBut(AddNode(st, cur, n), {cur})
  {
    var r := AddNode(st, cur, n);
    AddedKeepsNodes(st, cur, n, r);
    AddedKeepsIndex(st, cur, n, r);
    AddedKeepsLists(st, cur, n, r);
    AddedKeepsTree(st, cur, n, r);
    AddedKeepsChildren(st, cur, n, r);
    ExtendsKeepsClosed(st, r, {cur});
  }

  /** Entry i after adding n: old entries keep every field but cur's children; entry k is n. */
  lemma AddedEntry(st: SearchState, cur: nat, n: Node, r: SearchState, i: nat)
    requires cur < |st.nodes| && AddedNode(st, cur, n, r) && i < |r.nodes|
    ensures i < |st.nodes| ==>
      && r.nodes[i].state == st.nodes[i].state && r.nodes[i].parent == st.nodes[i].parent
      && r.nodes[i].g == st.nodes[i].g && r.nodes[i].h == st.nodes[i].h && r.nodes[i].f == st.nodes[i].f
      && r.nodes[i].children == (if i == cur then st.nodes[cur].children + [|st.nodes|] else st.nodes[i].children)
      && r.nodes[i].onPath == st.nodes[i].onPath && r.nodes[i].pathPos == st.nodes[i].pathPos
    ensures i == |st.nodes| ==>
      && r.nodes[i].state == n.state && r.nodes[i].parent == n.parent && r.nodes[i].children == n.children
      && r.nodes[i].g == n.g && r.nodes[i].h == n.h && r.nodes[i].f == n.f
      && r.nodes[i].onPath == n.onPath && r.nodes[i].pathPos == n.pathPos
  {
    if i < |st.nodes| && i != cur {
      assert r.nodes[i] == st.nodes[i];
    }
  }

  lemma AddedKeepsNodes(st: SearchState, cur: nat, n: Node, r: SearchState)
    requires NodesOk(st.nodes) && cur < |st.nodes|
    requires IsSuccessorOf(st.nodes, cur, n)
    requires AddedNode(st, cur, n, r)
    ensures NodesOk(r.nodes)
  {
    forall i | 0 <= i < |r.nodes|
      ensures NodeOk(r.nodes[i])
    {
      AddedEntry(st, cur, n, r, i);
      if i < |st.nodes| {
        assert NodeOk(st.nodes[i]);
      } else {
        assert i == |st.nodes|;
      }
    }
  }

  lemma AddedKeepsIndex(st: SearchState, cur: nat, n: Node, r: SearchState)
    requires IndexExact(st.nodes, st.index) && cur < |st.nodes|
    requires n.state !in st.index
    requires AddedNode(st, cur, n, r)
    ensures IndexExact(r.nodes, r.index)
    ensures Extends(st, r)
  {
    var k: nat := |st.nodes|;
    forall i | 0 <= i < |r.nodes|
      ensures r.nodes[i].state in r.index && r.index[r.nodes[i].state] == i
    {
      AddedEntry(st, cur, n, r, i);
      if i < k {
        assert st.nodes[i].state in st.index && st.index[st.nodes[i].state] == i;
        assert st.nodes[i].state != n.state;
      } else {
        assert i == k;
      }
    }
    forall s | s in r.index
      ensures r.index[s] < |r.nodes| && r.nodes[r.index[s]].state == s
    {
      if s == n.state {
        AddedEntry(st, cur, n, r, k);
      } else {
        assert s in st.index;
        AddedEntry(st, cur, n, r, st.index[s]);
      }
    }
    forall i | 0 <= i < k
      ensures r.nodes[i].state == st.nodes[i].state
    {
      AddedEntry(st, cur, n, r, i);
    }
  }

  lemma AddedKeepsLists(st: SearchState, cur: nat, n: Node, r: SearchState)
    requires ListsOk(st) && cur < |st.nodes|
    requires AddedNode(st, cur, n, r)
    ensures ListsOk(r)
  {
    var k: nat := |st.nodes|;
    assert k !in st.open;
    forall j | 0 <= j < |r.open|
      ensures r.open[j] < |r.nodes| && r.open[j] !in r.closed && multiset(r.open)[r.open[j]] == 1
    {
      var x := r.open[j];
      assert x in multiset(r.open);
      if x != k {
        assert x in st.open;
      }
    }
    forall i | 0 <= i < |r.nodes|
      ensures i in r.open || i in r.closed
    {
      if i == k {
        assert k in multiset(r.open);
      } else if i !in st.closed {
        assert i in st.open;
        assert i in multiset(r.open);
      }
    }
  }

  lemma AddedKeepsTree(st: SearchState, cur: nat, n: Node, r: SearchState)
    requires TreeLinks(st.nodes) && cur < |st.nodes|
    requires IsSuccessorOf(st.nodes, cur, n)
    requires AddedNode(st, cur, n, r)
    ensures TreeLinks(r.nodes)
  {
    AddedEntry(st, cur, n, r, 0);
    forall i | 0 < i < |r.nodes|
      ensures ParentOk(r.nodes, i)
    {
      if i < |st.nodes| {
        AddedKeepsParent(st, cur, n, r, i);
      } else {
        assert i == |st.nodes|;
        AddedParent(st, cur, n, r);
      }
    }
  }

  lemma AddedKeepsParent(st: SearchState, cur: nat, n: Node, r: SearchState, i: nat)
    requires TreeLinks(st.nodes) && cur < |st.nodes|
    requires AddedNode(st, cur, n, r)
    requires 0 < i < |st.nodes|
    ensures ParentOk(r.nodes, i)
  {
    assert ParentOk(st.nodes, i);
    AddedEntry(st, cur, n, r, i);
    AddedEntry(st, cur, n, r, st.nodes[i].parent.value);
  }

  lemma AddedParent(st: SearchState, cur: nat, n: Node, r: SearchState)
    requires TreeLinks(st.nodes) && cur < |st.nodes|
    requires IsSuccessorOf(st.nodes, cur, n)
    requires AddedNode(st, cur, n, r)
    ensures ParentOk(r.nodes, |st.nodes|)
  {
    AddedEntry(st, cur, n, r, cur);
    AddedEntry(st, cur, n, r, |st.nodes|);
  }

  lemma AddedKeepsChildren(st: SearchState, cur: nat, n: Node, r: SearchState)
    requires ChildrenExact(st.nodes) && TreeLinks(st.nodes) && cur < |st.nodes|
    requires n.parent == Some(cur) && n.children == []
    requires AddedNode(st, cur, n, r)
    ensures ChildrenExact(r.nodes)
  {
    var k: nat := |st.nodes|;
    forall q | 0 <= q < |r.nodes|
      ensures forall c :: c in r.nodes[q].children ==> c < |r.nodes|
      ensures NoDup(r.nodes[q].children)
    {
      AddedEntry(st, cur, n, r, q);
      if q == cur {
        assert k !in st.nodes[cur].children;
        NoDupSnoc(st.nodes[cur].children, k);
      } else if q == k {
        assert r.nodes[q].children == [];
      } else {
        assert NoDup(st.nodes[q].children);
      }
    }
    forall q, c | 0 <= q < |r.nodes| && 0 <= c < |r.nodes|
      ensures c in r.nodes[q].children <==> r.nodes[c].parent == Some(q)
    {
      AddedChildLink(st, cur, n, r, q, c);
    }
  }

  lemma AddedChildLink(st: SearchState, cur: nat, n: Node, r: SearchState, q: nat, c: nat)
    requires ChildrenExact(st.nodes) && TreeLinks(st.nodes) && cur < |st.nodes|
    requires n.parent == Some(cur) && n.children == []
    requires AddedNode(st, cur, n, r)
    requires q < |r.nodes| && c < |r.nodes|
    ensures c in r.nodes[q].children <==> r.nodes[c].parent == Some(q)
  {
    var k: nat := |st.nodes|;
    AddedEntry(st, cur, n, r, q);
    AddedEntry(st, cur, n, r, c);
    if c == k {
      if q < k {
        assert k !in st.nodes[q].children;
      }
    } else if q == k {
      if c != 0 {
        assert ParentOk(st.nodes, c);
      }
    } else {
      assert c in st.nodes[q].children <==> st.nodes[c].parent == Some(q);
    }
  }

  /** What the relaxation of e through cur needs: e has a parent p other than e, and e is not cur. */
  predicate Relaxable(st: SearchState, cur: nat, e: nat)
    requires cur < |st.nodes| && e < |st.nodes|
  {
    && e != cur
    && st.nodes[e].parent.Some?
    && st.nodes[e].parent.value < |st.nodes|
    && st.nodes[e].parent.value != e
  }

  /**
    The effect of relaxing node e through cur with the smaller cost g: e leaves
    its old parent p's children, takes cur as parent with the new g and f, is
    appended to cur's children, and moves from closed to open if it was closed.
   */
  predicate Relaxed(st: SearchState, cur: nat, e: nat, g: nat, r: SearchState)
    requires cur < |st.nodes| && e < |st.nodes| && Relaxable(st, cur, e)
  {
    var p := st.nodes[e].parent.value;
    var kept := if p == cur then Without(st.nodes[cur].children, e) else st.nodes[cur].children;
    && |r.nodes| == |st.nodes|
    && r.nodes[e] == st.nodes[e].(parent := Some(cur), g := g, f := g + st.nodes[e].h)
    && r.nodes[cur] == st.nodes[cur].(children := kept + [e])
    && (p != cur ==> r.nodes[p] == st.nodes[p].(children := Without(st.nodes[p].children, e)))
    && (forall i :: 0 <= i < |st.nodes| && i != cur && i != p && i != e ==> r.nodes[i] == st.nodes[i])
    && r.index == st.index
    && (e in st.closed ==> r.closed == st.closed - {e} && r.open == InsertIntoOpen(st.open, e, r.nodes))
    && (e in st.closed ==> multiset(r.open) == multiset(st.open) + multiset{e})
    && (e !in st.closed ==> r.closed == st.closed && r.open == st.open)
  }

  /** The known-board branch of the successor loop, taken when the new g is smaller. */
  function Relax(st: SearchState, cur: nat, e: nat, g: nat): (r: SearchState)
    requires cur < |st.nodes| && e < |st.nodes| && Relaxable(st, cur, e)
    ensures Relaxed(st, cur, e, g, r)
    ensures e in st.closed ==> SortedBy(r.open, FKey(r.nodes))
  {
    var nodes := Relink(st.nodes, cur, e, g);
    var r :=
      if e in st.closed then SearchState(nodes, InsertIntoOpen(st.open, e, nodes), st.closed - {e}, st.index)
      else SearchState(nodes, st.open, st.closed, st.index);
    RelinkRelaxes(st, cur, e, g, r);
    r
  }

  /**
    The three node updates of a relaxation, in the order the source makes them:
    e leaves its old parent's children, takes cur as parent with the new g and
    f, and is appended to cur's children.
   */
  function Relink(nodes: seq<Node>, cur: nat, e: nat, g: nat): (r: seq<Node>)
    requires cur < |nodes| && e < |nodes| && nodes[e].parent.Some? && nodes[e].parent.value < |nodes|
    ensures |r| == |nodes|
  {
    var p := nodes[e].parent.value;
    var old1 := nodes[p];
    var nodes1 := nodes[p := old1.(children := Without(old1.children, e))];
    var old2 := nodes1[e];
    var nodes2 := nodes1[e := old2.(parent := Some(cur), g := g, f := g + old2.h)];
    var old3 := nodes2[cur];
    nodes2[cur := old3.(children := old3.children + [e])]
  }

  lemma RelinkRelaxes(st: SearchState, cur: nat, e: nat, g: nat, r: SearchState)
    requires cur < |st.nodes| && e < |st.nodes| && Relaxable(st, cur, e)
    requires r.nodes == Relink(st.nodes, cur, e, g) && r.index == st.index
    requires e in st.closed ==> r.closed == st.closed - {e} && r.open == InsertIntoOpen(st.open, e, r.nodes)
    requires e !in st.closed ==> r.closed == st.closed && r.open == st.open
    ensures Relaxed(st, cur, e, g, r)
  {
  }

  /** What makes a relaxation of e through cur happen: a different board one move away, and a smaller g. */
  predicate CanRelax(st: SearchState, cur: nat, e: nat, g: nat)
    requires cur < |st.nodes| && e < |st.nodes|
  {
    && e != cur
    && IsMove(st.nodes[cur].state, st.nodes[e].state)
    && g == st.nodes[cur].g + 1
    && g < st.nodes[e].g
  }

  /**
    A relaxation never reaches the root (its g is 0, and the new g is at least
    1), so the old parent exists; and it keeps every invariant.
   */
  lemma RelaxKeepsCore(st: SearchState, cur: nat, e: nat, g: nat)
    requires Core(st) && cur < |st.nodes| && e < |st.nodes|
    requires CanRelax(st, cur, e, g)
    ensures e != 0
    ensures Relaxable(st, cur, e)
    ensures Core(Relax(st, cur, e, g))
    ensures Extends(st, Relax(st, cur, e, g))
    ensures ExpandedBut(st, {cur}) ==> ExpandedBut(Relax(st, cur, e, g), {cur})
  {
    assert e != 0;
    assert ParentOk(st.nodes, e);
    var r := Relax(st, cur, e, g);
    RelaxedKeepsNodes(st, cur, e, g, r);
    RelaxedKeepsLists(st, cur, e, g, r);
    RelaxedKeepsTree(st, cur, e, g, r);
    RelaxedKeepsChildren(st, cur, e, g, r);
    ExtendsKeepsClosed(st, r, {cur});
  }

  /** Entry i after the relaxation: only e's parent, g and f and the two children lists change. */
  lemma RelaxedEntry(st: SearchState, cur: nat, e: nat, g: nat, r: SearchState, i: nat)
    requires cur < |st.nodes| && e < |st.nodes| && Relaxable(st, cur, e)
    requires Relaxed(st, cur, e, g, r) && i < |st.nodes|
    ensures r.nodes[i].state == st.nodes[i].state && r.nodes[i].h == st.nodes[i].h
    ensures r.nodes[i].onPath == st.nodes[i].onPath && r.nodes[i].pathPos == st.nodes[i].pathPos
    ensures r.nodes[i].parent == if i == e then Some(cur) else st.nodes[i].parent
    ensures r.nodes[i].g == if i == e then g else st.nodes[i].g
    ensures r.nodes[i].f == if i == e then g + st.nodes[i].h else st.nodes[i].f
    ensures var p := st.nodes[e].parent.value;
      r.nodes[i].children ==
        if i == cur then (if p == cur then Without(st.nodes[cur].children, e) else st.nodes[cur].children) + [e]
        else if i == p then Without(st.nodes[p].children, e)
        else st.nodes[i].children
  {
    var p := st.nodes[e].parent.value;
    if i != cur && i != p && i != e {
      assert r.nodes[i] == st.nodes[i];
    }
  }

  lemma RelaxedKeepsNodes(st: SearchState, cur: nat, e: nat, g: nat, r: SearchState)
    requires NodesOk(st.nodes) && IndexExact(st.nodes, st.index)
    requires cur < |st.nodes| && e < |st.nodes| && Relaxable(st, cur, e)
    requires Relaxed(st, cur, e, g, r)
    ensures NodesOk(r.nodes) && IndexExact(r.nodes, r.index)
    ensures Extends(st, r)
  {
    forall i | 0 <= i < |r.nodes|
      ensures NodeOk(r.nodes[i]) && r.nodes[i].state == st.nodes[i].state
    {
      RelaxedEntry(st, cur, e, g, r, i);
      assert NodeOk(st.nodes[i]);
    }
  }

  lemma RelaxedKeepsLists(st: SearchState, cur: nat, e: nat, g: nat, r: SearchState)
    requires ListsOk(st)
    requires cur < |st.nodes| && e < |st.nodes| && Relaxable(st, cur, e)
    requires Relaxed(st, cur, e, g, r)
    ensures ListsOk(r)
  {
    if e in st.closed {
      assert e !in st.open;
      forall j | 0 <= j < |r.open|
        ensures r.open[j] < |r.nodes| && r.open[j] !in r.closed && multiset(r.open)[r.open[j]] == 1
      {
        var x := r.open[j];
        assert x in multiset(r.open);
        if x != e {
          assert x in st.open;
        }
      }
      forall i | 0 <= i < |r.nodes|
        ensures i in r.open || i in r.closed
      {
        if i == e {
          assert e in multiset(r.open);
        } else if i !in st.closed {
          assert i in st.open;
          assert i in multiset(r.open);
        }
      }
    }
  }

  lemma RelaxedKeepsTree(st: SearchState, cur: nat, e: nat, g: nat, r: SearchState)
    requires TreeLinks(st.nodes)
    requires cur < |st.nodes| && e < |st.nodes| && Relaxable(st, cur, e)
    requires CanRelax(st, cur, e, g) && e != 0
    requires Relaxed(st, cur, e, g, r)
    ensures TreeLinks(r.nodes)
  {
    RelaxedEntry(st, cur, e, g, r, 0);
    forall i | 0 < i < |r.nodes|
      ensures ParentOk(r.nodes, i)
    {
      RelaxedEntry(st, cur, e, g, r, i);
      if i == e {
        RelaxedEntry(st, cur, e, g, r, cur);
      } else {
        assert ParentOk(st.nodes, i);
        RelaxedEntry(st, cur, e, g, r, st.nodes[i].parent.value);
      }
    }
  }

  lemma RelaxedKeepsChildren(st: SearchState, cur: nat, e: nat, g: nat, r: SearchState)
    requires ChildrenExact(st.nodes)
    requires cur < |st.nodes| && e < |st.nodes| && Relaxable(st, cur, e)
    requires Relaxed(st, cur, e, g, r)
    ensures ChildrenExact(r.nodes)
  {
    RelaxedChildLists(st, cur, e, g, r);
    RelaxedChildLinks(st, cur, e, g, r);
  }

  /** After a relaxation every children list holds existing nodes, once each. */
  lemma RelaxedChildLists(st: SearchState, cur: nat, e: nat, g: nat, r: SearchState)
    requires ChildrenExact(st.nodes)
    requires cur < |st.nodes| && e < |st.nodes| && Relaxable(st, cur, e)
    requires Relaxed(st, cur, e, g, r)
    ensures forall q, c :: 0 <= q < |r.nodes| && c in r.nodes[q].children ==> c < |r.nodes|
    ensures forall q :: 0 <= q < |r.nodes| ==> NoDup(r.nodes[q].children)
  {
    forall q | 0 <= q < |r.nodes|
      ensures forall c :: c in r.nodes[q].children ==> c < |r.nodes|
      ensures NoDup(r.nodes[q].children)
    {
      assert NoDup(st.nodes[q].children);
      RelaxedChildList(st, cur, e, g, r, q);
    }
  }

  lemma RelaxedChildList(st: SearchState, cur: nat, e: nat, g: nat, r: SearchState, q: nat)
    requires cur < |st.nodes| && e < |st.nodes| && Relaxable(st, cur, e)
    requires Relaxed(st, cur, e, g, r) && q < |st.nodes|
    requires forall c :: c in st.nodes[q].children ==> c < |st.nodes|
    requires NoDup(st.nodes[q].children)
    requires e in st.nodes[q].children <==> st.nodes[e].parent == Some(q)
    ensures forall c :: c in r.nodes[q].children ==> c < |r.nodes|
    ensures NoDup(r.nodes[q].children)
  {
    RelaxedEntry(st, cur, e, g, r, q);
    var p := st.nodes[e].parent.value;
    if q == cur {
      var kept := if p == cur then Without(st.nodes[cur].children, e) else st.nodes[cur].children;
      NoDupWithout(st.nodes[cur].children, e);
      assert NoDup(kept) && e !in kept;
      NoDupSnoc(kept, e);
    } else if q == p {
      NoDupWithout(st.nodes[p].children, e);
    }
  }

  /** After a relaxation the children lists are still the inverse of the parent links. */
  lemma RelaxedChildLinks(st: SearchState, cur: nat, e: nat, g: nat, r: SearchState)
    requires ChildrenExact(st.nodes)
    requires cur < |st.nodes| && e < |st.nodes| && Relaxable(st, cur, e)
    requires Relaxed(st, cur, e, g, r)
    ensures forall q, c :: 0 <= q < |r.nodes| && 0 <= c < |r.nodes| ==>
      (c in r.nodes[q].children <==> r.nodes[c].parent == Some(q))
  {
    forall q, c | 0 <= q < |r.nodes| && 0 <= c < |r.nodes|
      ensures c in r.nodes[q].children <==> r.nodes[c].parent == Some(q)
    {
      RelaxedEntry(st, cur, e, g, r, q);
      RelaxedEntry(st, cur, e, g, r, c);
      assert c in st.nodes[q].children <==> st.nodes[c].parent == Some(q);
    }
  }

  /**
    One pass of the successor loop for successor n of cur: add it if its board
    is new, relax the known node if n is cheaper, and otherwise drop it.
   */
  function Visit(st: SearchState, cur: nat, n: Node): (r: SearchState)
    requires Core(st) && cur < |st.nodes|
    requires IsSuccessorOf(st.nodes, cur, n)
    ensures n.state in st.index ==> st.index[n.state] < |st.nodes|
    ensures n.state !in st.index ==> AddedNode(st, cur, n, r)
    ensures n.state in st.index && n.g < st.nodes[st.index[n.state]].g ==>
      Relaxable(st, cur, st.index[n.state]) && Relaxed(st, cur, st.index[n.state], n.g, r)
    ensures n.state in st.index && n.g >= st.nodes[st.index[n.state]].g ==> r == st
    ensures Core(r) && Extends(st, r)
    ensures n.state in r.index
    ensures r.nodes[cur].state == st.nodes[cur].state && r.nodes[cur].g == st.nodes[cur].g
    ensures cur in st.closed ==> cur in r.closed
    ensures ExpandedBut(st, {cur}) ==> ExpandedBut(r, {cur})
  {
    if n.state !in st.index then
      AddNodeKeepsCore(st, cur, n);
      var r := AddNode(st, cur, n);
      AddedEntry(st, cur, n, r, cur);
      r
    else
      var e := st.index[n.state];
      if n.g < st.nodes[e].g then
        MoveChanges(st.nodes[cur].state, n.state);
        RelaxKeepsCore(st, cur, e, n.g);
        var r := Relax(st, cur, e, n.g);
        RelaxedEntry(st, cur, e, n.g, r, cur);
        r
      else st
  }

  /** Every node of succs is a fresh successor of cur. */
  predicate AllSuccessors(nodes: seq<Node>, cur: nat, succs: seq<Node>)
    requires cur < |nodes|
  {
    forall k :: 0 <= k < |succs| ==> IsSuccessorOf(nodes, cur, succs[k])
  }

  /**
    The successors left after the first stay successors of cur once the first
    is visited: the node list only grows and cur keeps its board and g.
   */
  lemma SuccessorsStay(st: SearchState, r: SearchState, cur: nat, succs: seq<Node>)
    requires cur < |st.nodes| && Extends(st, r)
    requires r.nodes[cur].g == st.nodes[cur].g
    requires |succs| > 0 && AllSuccessors(st.nodes, cur, succs)
    ensures AllSuccessors(r.nodes, cur, succs[1..])
  {
    assert r.nodes[cur].state == st.nodes[cur].state;
    forall k | 0 <= k < |succs[1..]|
      ensures IsSuccessorOf(r.nodes, cur, succs[1..][k])
    {
      assert succs[1..][k] == succs[k + 1];
      assert IsSuccessorOf(st.nodes, cur, succs[k + 1]);
    }
  }

  /** Every board of succs is indexed once the first is and the rest are. */
  predicate AllIndexed(r: SearchState, succs: seq<Node>) {
    forall k :: 0 <= k < |succs| ==> succs[k].state in r.index
  }

  lemma IndexedTail(r: SearchState, succs: seq<Node>)
    requires |succs| > 0 && succs[0].state in r.index
    requires AllIndexed(r, succs[1..])
    ensures AllIndexed(r, succs)
  {
    forall k | 0 < k < |succs|
      ensures succs[k].state in r.index
    {
      assert succs[1..][k - 1] == succs[k];
    }
  }

  /** The successor loop of `aStarSearch` over succs, in order. */
  function Expand(st: SearchState, cur: nat, succs: seq<Node>): (r: SearchState)
    requires Core(st) && cur < |st.nodes|
    requires AllSuccessors(st.nodes, cur, succs)
    ensures Core(r) && Extends(st, r)
    ensures AllIndexed(r, succs)
    ensures r.nodes[cur].state == st.nodes[cur].state && r.nodes[cur].g == st.nodes[cur].g
    ensures cur in st.closed ==> cur in r.closed
    ensures ExpandedBut(st, {cur}) ==> ExpandedBut(r, {cur})
    decreases |succs|
  {
    if |succs| == 0 then st
    else
      assert IsSuccessorOf(st.nodes, cur, succs[0]);
      var st1 := Visit(st, cur, succs[0]);
      SuccessorsStay(st, st1, cur, succs);
      var r := Expand(st1, cur, succs[1..]);
      ExtendsTrans(st, st1, r);
      IndexedTail(r, succs);
      r
  }

  lemma NoDupWithout(s: seq<nat>, x: nat)
    requires NoDup(s)
    ensures NoDup(Without(s, x))
  {
    forall y | y in Without(s, x)
      ensures multiset(Without(s, x))[y] == 1
    {
    }
  }

  lemma NoDupSnoc(s: seq<nat>, x: nat)
    requires NoDup(s) && x !in s
    ensures NoDup(s + [x])
  {
    forall y | y in s + [x]
      ensures multiset(s + [x])[y] == 1
    {
      assert multiset(s + [x]) == multiset(s) + multiset{x};
      if y != x {
        assert y in s;
      }
    }
  }
}
