/**
  `constructOptimalPath`: follow parent links from a node up to the root,
  reverse the list, and mark every listed node with its position.
 */
module Path {
  import opened Options
  import opened Nodes

  /**
    Every parent link points at an existing node with a strictly smaller g.
    Relaxation only ever lowers g, so this survives the stale g values that
    descendants of a relaxed node keep, and it rules out cycles.
   */
  predicate LinksDescend(nodes: seq<Node>) {
    forall i :: 0 <= i < |nodes| && nodes[i].parent.Some? ==>
      nodes[i].parent.value < |nodes| && nodes[nodes[i].parent.value].g < nodes[i].g
  }

  /** The loop of `constructOptimalPath` before the reversal: k, its parent, ..., a node without parent. */
  function WalkUp(nodes: seq<Node>, k: nat): (up: seq<nat>)
    requires LinksDescend(nodes) && k < |nodes|
    ensures |up| >= 1 && up[0] == k
    ensures forall i :: 0 <= i < |up| ==> up[i] < |nodes|
    ensures nodes[up[|up| - 1]].parent.None?
    ensures forall i :: 0 < i < |up| ==> nodes[up[i - 1]].parent == Some(up[i])
    ensures forall i, j :: 0 <= i < j < |up| ==> nodes[up[j]].g < nodes[up[i]].g
    ensures |up| - 1 <= nodes[k].g
    decreases nodes[k].g
  {
    match nodes[k].parent
    case None => [k]
    case Some(p) =>
      var rest := WalkUp(nodes, p);
      var up := [k] + rest;
      assert forall i :: 0 < i < |up| ==> up[i] == rest[i - 1];
      up
  }

  function Reverse(s: seq<nat>): (r: seq<nat>)
    ensures |r| == |s|
    ensures forall i :: 0 <= i < |s| ==> r[i] == s[|s| - 1 - i]
  {
    if |s| == 0 then [] else Reverse(s[1..]) + [s[0]]
  }

  /**
    A root-to-k chain: it starts at a node without parent, ends at k, and each
    entry is the parent of the next.
   */
  predicate IsChainTo(nodes: seq<Node>, path: seq<nat>, k: nat) {
    && |path| >= 1
    && (forall i :: 0 <= i < |path| ==> path[i] < |nodes|)
    && nodes[path[0]].parent.None?
    && path[|path| - 1] == k
    && (forall i :: 0 < i < |path| ==> nodes[path[i]].parent == Some(path[i - 1]))
  }

  /** The list `constructOptimalPath` returns: the reversed walk up. */
  function OptimalPath(nodes: seq<Node>, k: nat): (path: seq<nat>)
    requires LinksDescend(nodes) && k < |nodes|
    ensures IsChainTo(nodes, path, k)
    ensures forall i, j :: 0 <= i < j < |path| ==> nodes[path[i]].g < nodes[path[j]].g
    ensures |path| - 1 <= nodes[k].g
  {
    var up := WalkUp(nodes, k);
    var path := Reverse(up);
    assert forall i :: 0 <= i < |path| ==> path[i] == up[|up| - 1 - i];
    path
  }

  /** A chain to k is a single entry exactly when k has no parent. */
  lemma ChainLength(nodes: seq<Node>, a: seq<nat>, k: nat)
    requires IsChainTo(nodes, a, k)
    ensures |a| == 1 <==> nodes[k].parent.None?
  {
    if |a| > 1 {
      assert nodes[a[|a| - 1]].parent == Some(a[|a| - 2]);
    }
  }

  /** Any root-to-k chain is the one OptimalPath returns: the parent links determine it. */
  lemma {:induction false} ChainUnique(nodes: seq<Node>, a: seq<nat>, b: seq<nat>, k: nat)
    requires IsChainTo(nodes, a, k) && IsChainTo(nodes, b, k)
    ensures a == b
    decreases |a|
  {
    ChainLength(nodes, a, k);
    ChainLength(nodes, b, k);
    if |a| > 1 {
      var p := a[|a| - 2];
      assert Some(p) == nodes[k].parent == Some(b[|b| - 2]);
      ChainUnique(nodes, a[..|a| - 1], b[..|b| - 1], p);
      assert a == a[..|a| - 1] + [k];
      assert b == b[..|b| - 1] + [k];
    }
  }

  /** Entries pairwise different. */
  predicate Distinct(path: seq<nat>) {
    forall i, j :: 0 <= i < j < |path| ==> path[i] != path[j]
  }

  /** The `forEach` of `constructOptimalPath` from position i on: mark path[j] with j. */
  function MarkFrom(nodes: seq<Node>, path: seq<nat>, i: nat): (r: seq<Node>)
    requires i <= |path| && Distinct(path)
    requires forall j :: 0 <= j < |path| ==> path[j] < |nodes|
    ensures |r| == |nodes|
    ensures forall j :: i <= j < |path| ==>
      r[path[j]] == nodes[path[j]].(onPath := true, pathPos := Some(j))
    ensures forall n :: 0 <= n < |nodes| && n !in path[i..] ==> r[n] == nodes[n]
    decreases |path| - i
  {
    if i == |path| then nodes
    else
      var marked := nodes[path[i] := nodes[path[i]].(onPath := true, pathPos := Some(i))];
      var r := MarkFrom(marked, path, i + 1);
      assert forall n :: n in path[i + 1..] ==> n in path[i..];
      assert forall j :: i < j < |path| ==> path[j] != path[i];
      assert path[i] in path[i..] && path[i] !in path[i + 1..];
      r
  }

  datatype Reconstruction = Reconstruction(nodes: seq<Node>, path: seq<nat>)

  /**
    `constructOptimalPath(k)`: the root-to-k chain, with every node on it
    marked `onPath` and given its position; no other node and no other field changes.
   */
  function ConstructOptimalPath(nodes: seq<Node>, k: nat): (r: Reconstruction)
    requires LinksDescend(nodes) && k < |nodes|
    ensures IsChainTo(nodes, r.path, k)
    ensures |r.path| - 1 <= nodes[k].g
    ensures |r.nodes| == |nodes|
    ensures forall j :: 0 <= j < |r.path| ==>
      r.nodes[r.path[j]] == nodes[r.path[j]].(onPath := true, pathPos := Some(j))
    ensures forall n :: 0 <= n < |nodes| && n !in r.path ==> r.nodes[n] == nodes[n]
  {
    var path := OptimalPath(nodes, k);
    assert path[0..] == path;
    Reconstruction(MarkFrom(nodes, path, 0), path)
  }
}
