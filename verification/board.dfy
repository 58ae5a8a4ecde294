/**
  The 3x3 board: nine cells in reading order, 0 standing for the blank.
  Cell i sits in row i / 3 and column i % 3; cell indices are never negative,
  so Dafny's division and remainder agree with Math.floor and % in the source.
 */
module Board {

  /** The fixed goal layout. */
  const Goal: seq<int> := [1, 2, 3, 4, 5, 6, 7, 8, 0]

  /** Every entry lies in 0..n-1. */
  predicate InRange(s: seq<int>, n: int) {
    forall i :: 0 <= i < |s| ==> 0 <= s[i] < n
  }

  /** No value occurs twice. */
  predicate AllDifferent(s: seq<int>) {
    forall i, j :: 0 <= i < |s| && 0 <= j < |s| && i != j ==> s[i] != s[j]
  }

  /** Nine cells, each holding a tile number 0..8 (not necessarily distinct). */
  predicate Tiles(s: seq<int>) {
    |s| == 9 && InRange(s, 9)
  }

  /**
    A board: nine different tile numbers 0..8, that is a permutation of the
    goal (BoardHasEveryTile).
   */
  predicate IsBoard(s: seq<int>) {
    Tiles(s) && AllDifferent(s)
  }

  /** Array.prototype.indexOf for a value that is present: the first position holding it. */
  function IndexOf(s: seq<int>, v: int): (r: nat)
    requires v in s
    ensures r < |s| && s[r] == v
    ensures v !in s[..r]
  {
    if s[0] == v then 0 else 1 + IndexOf(s[1..], v)
  }

  /** Exchanges the contents of cells i and j. */
  function Swap(s: seq<int>, i: nat, j: nat): (r: seq<int>)
    requires i < |s| && j < |s|
    ensures |r| == |s| && r[i] == s[j] && r[j] == s[i]
    ensures forall k :: 0 <= k < |s| && k != i && k != j ==> r[k] == s[k]
  {
    s[i := s[j]][j := s[i]]
  }

  function Abs(x: int): nat {
    if x < 0 then -x else x
  }

  /** The row of cell i, written by cases rather than as i / 3 (see RowColDivMod). */
  function Row(i: nat): nat
    requires i < 9
  {
    if i < 3 then 0 else if i < 6 then 1 else 2
  }

  /** The column of cell i, i % 3 (see RowColDivMod). */
  function Col(i: nat): nat
    requires i < 9
  {
    i - 3 * Row(i)
  }

  /** Row and Col are the source's Math.floor(i / 3) and i % 3. */
  lemma RowColDivMod(i: nat)
    requires i < 9
    ensures Row(i) == i / 3 && Col(i) == i % 3
  {
  }

  /** Manhattan distance between two cells. */
  function Manhattan(a: nat, b: nat): nat
    requires a < 9 && b < 9
  {
    Abs(Row(a) - Row(b)) + Abs(Col(a) - Col(b))
  }

  /** Two cells of the board that share an edge. */
  predicate Adjacent(a: int, b: int) {
    0 <= a < 9 && 0 <= b < 9 && Manhattan(a, b) == 1
  }

  predicate IsCorner(z: int) {
    z == 0 || z == 2 || z == 6 || z == 8
  }

  /**
    The cells the blank at z may move to, in the order the source tries them:
    left, right, up, down, each guarded by the blank's column or row.
   */
  function BlankTargets(z: int): (ts: seq<int>)
    requires 0 <= z < 9
    ensures forall t :: t in ts <==> Adjacent(z, t)
    ensures |ts| == (if z == 4 then 4 else if IsCorner(z) then 2 else 3)
    ensures forall a, b :: 0 <= a < b < |ts| ==> ts[a] != ts[b]
  {
    var ts := Guarded(z);
    GuardedAdjacent(z);
    ts
  }

  /** The four guarded pushes, before anything is known about them. */
  function Guarded(z: int): seq<int>
    requires 0 <= z < 9
  {
    (if z % 3 > 0 then [z - 1] else [])
    + (if z % 3 < 2 then [z + 1] else [])
    + (if z / 3 > 0 then [z - 3] else [])
    + (if z / 3 < 2 then [z + 3] else [])
  }

  /** The guards admit exactly the neighbours of z, each once. */
  lemma GuardedAdjacent(z: int)
    requires 0 <= z < 9
    ensures forall t :: t in Guarded(z) <==> Adjacent(z, t)
    ensures |Guarded(z)| == (if z == 4 then 4 else if IsCorner(z) then 2 else 3)
    ensures forall a, b :: 0 <= a < b < |Guarded(z)| ==> Guarded(z)[a] != Guarded(z)[b]
  {
    forall t
      ensures t in Guarded(z) <==> Adjacent(z, t)
    {
      NeighbourCases(z, t);
    }
  }

  /** t is a neighbour of z exactly when it is the cell one step left, right, up or down that exists. */
  lemma NeighbourCases(z: int, t: int)
    requires 0 <= z < 9
    ensures Adjacent(z, t) <==>
      || (z % 3 > 0 && t == z - 1)
      || (z % 3 < 2 && t == z + 1)
      || (z / 3 > 0 && t == z - 3)
      || (z / 3 < 2 && t == z + 3)
  {
    RowColDivMod(z);
    if 0 <= t < 9 {
      RowColDivMod(t);
    }
  }

  /**
    The destinations of the blank from every cell, in the order they are
    tried: left, right, up, down. This order fixes the order in which
    successors enter the open list, and so how ties in f are broken.
   */
  lemma BlankTargetsOrder()
    ensures BlankTargets(0) == [1, 3] && BlankTargets(1) == [0, 2, 4] && BlankTargets(2) == [1, 5]
    ensures BlankTargets(3) == [4, 0, 6] && BlankTargets(4) == [3, 5, 1, 7] && BlankTargets(5) == [4, 2, 8]
    ensures BlankTargets(6) == [7, 3] && BlankTargets(7) == [6, 8, 4] && BlankTargets(8) == [7, 5]
  {
  }

  /** The goal is a board: tile k + 1 in cell k, the blank last. */
  lemma GoalIsBoard()
    ensures IsBoard(Goal)
    ensures forall i :: 0 <= i < 9 ==> Goal[i] == if i == 8 then 0 else i + 1
  {
    assert forall i :: 0 <= i < 9 ==> Goal[i] == if i == 8 then 0 else i + 1;
  }

  /** Values above v moved down by one, so that v's slot is squeezed out. */
  function Squeeze(s: seq<int>, v: int): (t: seq<int>)
    ensures |t| == |s|
    ensures forall i :: 0 <= i < |s| ==> t[i] == if s[i] > v then s[i] - 1 else s[i]
  {
    seq(|s|, i requires 0 <= i < |s| => if s[i] > v then s[i] - 1 else s[i])
  }

  /** Without v, a board squeezes into nine different numbers 0..7. */
  lemma SqueezeMissing(s: seq<int>, v: int)
    requires IsBoard(s) && 0 <= v < 9
    ensures v !in s ==> InRange(Squeeze(s, v), 8) && AllDifferent(Squeeze(s, v))
  {
    if v !in s {
      var t := Squeeze(s, v);
      forall i | 0 <= i < |t|
        ensures 0 <= t[i] < 8
      {
        assert s[i] != v;
      }
      forall i, j | 0 <= i < |t| && 0 <= j < |t| && i != j
        ensures t[i] != t[j]
      {
        assert s[i] != v && s[j] != v && s[i] != s[j];
      }
    }
  }

  /** Pigeonhole: different numbers drawn from 0..n-1 are at most n. */
  lemma {:induction false} DifferentBound(s: seq<int>, n: nat)
    ensures InRange(s, n) && AllDifferent(s) ==> |s| <= n
    decreases n
  {
    if n == 0 {
      NothingBelowZero(s);
    } else if n - 1 in s {
      var t := RemoveTop(s, n);
      DifferentBound(t, n - 1);
    } else {
      BelowTop(s, n);
      DifferentBound(s, n - 1);
    }
  }

  /** s without its entry n - 1. */
  function RemoveTop(s: seq<int>, n: nat): (t: seq<int>)
    requires n > 0 && n - 1 in s
    ensures |t| == |s| - 1
    ensures InRange(s, n) && AllDifferent(s) ==> InRange(t, n - 1) && AllDifferent(t)
  {
    var p := IndexOf(s, n - 1);
    var t := s[..p] + s[p + 1..];
    RemoveTopFacts(s, n, p, t);
    t
  }

  lemma RemoveTopFacts(s: seq<int>, n: nat, p: nat, t: seq<int>)
    requires p < |s| && s[p] == n - 1 && t == s[..p] + s[p + 1..]
    ensures InRange(s, n) && AllDifferent(s) ==> InRange(t, n - 1) && AllDifferent(t)
  {
    assert forall i :: 0 <= i < |t| ==> t[i] == s[Skip(i, p)];
    if InRange(s, n) && AllDifferent(s) {
      forall i | 0 <= i < |t|
        ensures 0 <= t[i] < n - 1
      {
        assert t[i] == s[Skip(i, p)];
      }
      forall i, j | 0 <= i < |t| && 0 <= j < |t| && i != j
        ensures t[i] != t[j]
      {
        assert t[i] == s[Skip(i, p)] && t[j] == s[Skip(j, p)];
      }
    }
  }

  /** The position in s of entry i of s with position p left out. */
  function Skip(i: nat, p: nat): (k: nat)
    ensures k != p && (i < p ==> k == i) && (i >= p ==> k == i + 1)
  {
    if i < p then i else i + 1
  }

  /** Without n - 1, numbers below n are below n - 1. */
  lemma BelowTop(s: seq<int>, n: nat)
    requires n > 0 && n - 1 !in s
    ensures InRange(s, n) ==> InRange(s, n - 1)
  {
    forall i | 0 <= i < |s|
      ensures s[i] != n - 1
    {
      assert s[i] in s;
    }
  }

  lemma NothingBelowZero(s: seq<int>)
    ensures InRange(s, 0) ==> |s| == 0
  {
    if |s| > 0 {
      assert !(0 <= s[0] < 0);
    }
  }

  /** Every tile 0..8 is somewhere on a board. */
  lemma BoardHasEveryTile(s: seq<int>, v: int)
    requires IsBoard(s) && 0 <= v < 9
    ensures v in s
  {
    SqueezeMissing(s, v);
    DifferentBound(Squeeze(s, v), 8);
  }

  /** Exchanging two cells of a board gives a board. */
  lemma SwapBoard(s: seq<int>, i: nat, j: nat)
    requires IsBoard(s) && i < 9 && j < 9
    ensures IsBoard(Swap(s, i, j))
  {
    var r := Swap(s, i, j);
    forall a, b | 0 <= a < 9 && 0 <= b < 9 && a != b
      ensures r[a] != r[b]
    {
      var a', b' := Origin(a, i, j), Origin(b, i, j);
      assert r[a] == s[a'] && r[b] == s[b'] && a' != b';
    }
  }

  /** The cell whose content Swap(_, i, j) moves into cell k. */
  function Origin(k: nat, i: nat, j: nat): (o: nat)
    ensures k != i && k != j ==> o == k
  {
    if k == i then j else if k == j then i else k
  }

  /** The cell holding the blank (`state.indexOf(0)`). */
  function Blank(s: seq<int>): (z: nat)
    requires IsBoard(s)
    ensures z < 9 && s[z] == 0
    ensures forall k :: 0 <= k < 9 && s[k] == 0 ==> k == z
  {
    BoardHasEveryTile(s, 0);
    IndexOf(s, 0)
  }

  /** s' is s with its blank swapped with an orthogonal neighbour. */
  predicate IsMove(s: seq<int>, s': seq<int>) {
    && IsBoard(s)
    && IsBoard(s')
    && Adjacent(Blank(s), Blank(s'))
    && s' == Swap(s, Blank(s), Blank(s'))
  }

  /** Sliding the blank into a neighbouring cell gives a board whose blank is there. */
  lemma SwapBlank(s: seq<int>, t: int)
    requires IsBoard(s) && Adjacent(Blank(s), t)
    ensures IsBoard(Swap(s, Blank(s), t))
    ensures Blank(Swap(s, Blank(s), t)) == t
    ensures IsMove(s, Swap(s, Blank(s), t))
  {
    var s' := Swap(s, Blank(s), t);
    SwapBoard(s, Blank(s), t);
    assert s'[t] == 0;
  }

  /** Every move can be undone by the opposite move. */
  lemma MoveReverse(s: seq<int>, s': seq<int>)
    requires IsMove(s, s')
    ensures IsMove(s', s)
  {
    var z, t := Blank(s), Blank(s');
    AdjacentSymmetric(z, t);
    SwapBack(s, z, t);
  }

  /** Exchanging the same two cells twice restores the sequence. */
  lemma SwapBack(s: seq<int>, i: nat, j: nat)
    requires i < |s| && j < |s|
    ensures Swap(Swap(s, i, j), j, i) == s
  {
    var u := Swap(Swap(s, i, j), j, i);
    assert forall k :: 0 <= k < |u| ==> u[k] == s[k];
  }

  lemma AdjacentSymmetric(a: int, b: int)
    requires Adjacent(a, b)
    ensures Adjacent(b, a)
  {
  }

  /** A move changes the board (the blank moves). */
  lemma MoveChanges(s: seq<int>, s': seq<int>)
    requires IsMove(s, s')
    ensures s != s'
  {
    assert s'[Blank(s')] == 0;
    assert s[Blank(s')] != 0;
  }

  /** Every entry is a single decimal digit. */
  predicate Digits(s: seq<int>) {
    forall i :: 0 <= i < |s| ==> 0 <= s[i] < 10
  }

  function Digit(v: int): char
    requires 0 <= v < 10
  {
    ('0' as int + v) as char
  }

  /** `Array.prototype.toString` of a digit sequence: the digits joined by commas. */
  function Key(s: seq<int>): (k: string)
    requires Digits(s)
    ensures |s| > 0 ==> |k| == 2 * |s| - 1
    ensures |s| == 0 ==> k == ""
  {
    if |s| == 0 then ""
    else if |s| == 1 then [Digit(s[0])]
    else [Digit(s[0]), ','] + Key(s[1..])
  }

  /** Distinct digit sequences print differently, so the printed key may stand for the board. */
  lemma {:induction false} KeyInjective(a: seq<int>, b: seq<int>)
    requires Digits(a) && Digits(b)
    ensures Key(a) == Key(b) ==> a == b
  {
    if Key(a) == Key(b) && |a| > 0 {
      assert |a| == |b|;
      assert Key(a)[0] == Key(b)[0];
      assert a[0] == b[0];
      if |a| > 1 {
        assert Key(a[1..]) == Key(a)[2..] == Key(b)[2..] == Key(b[1..]);
        KeyInjective(a[1..], b[1..]);
        assert a == [a[0]] + a[1..];
        assert b == [b[0]] + b[1..];
      }
    }
  }

  /** `isGoalState`: the printed board equals the printed goal. */
  predicate IsGoal(s: seq<int>)
    requires Digits(s)
  {
    Key(s) == Key(Goal)
  }

  lemma IsGoalIff(s: seq<int>)
    requires Digits(s)
    ensures IsGoal(s) <==> s == Goal
  {
    KeyInjective(s, Goal);
  }

  /** A sequence of boards each one move after the one before. */
  predicate IsWalk(ps: seq<seq<int>>) {
    forall k :: 0 < k < |ps| ==> MoveAt(ps, k)
  }

  /** Step k of ps, from ps[k - 1] to ps[k], is a move. */
  predicate MoveAt(ps: seq<seq<int>>, k: nat)
    requires 0 < k < |ps|
  {
    IsMove(ps[k - 1], ps[k])
  }

  /** A walk without its first board is a walk. */
  lemma WalkTail(ps: seq<seq<int>>)
    requires IsWalk(ps) && |ps| > 0
    ensures IsWalk(ps[1..])
  {
    var t := ps[1..];
    forall k | 0 < k < |t|
      ensures MoveAt(t, k)
    {
      assert MoveAt(ps, k + 1);
      assert t[k - 1] == ps[k] && t[k] == ps[k + 1];
    }
  }

  /** A walk cut after n boards is a walk. */
  lemma WalkPrefix(ps: seq<seq<int>>, n: nat)
    requires IsWalk(ps) && n <= |ps|
    ensures IsWalk(ps[..n])
  {
    var t := ps[..n];
    forall k | 0 < k < |t|
      ensures MoveAt(t, k)
    {
      assert MoveAt(ps, k);
    }
  }

  /** A move in front of a walk gives a walk. */
  lemma WalkCons(s: seq<int>, ps: seq<seq<int>>)
    requires IsWalk(ps) && |ps| > 0 && IsMove(s, ps[0])
    ensures IsWalk([s] + ps)
  {
    var t := [s] + ps;
    forall k | 0 < k < |t|
      ensures MoveAt(t, k)
    {
      if k > 1 {
        assert MoveAt(ps, k - 1);
        assert t[k - 1] == ps[k - 2] && t[k] == ps[k - 1];
      }
    }
  }

  /** Board t can be reached from board s by legal moves. */
  ghost predicate Reaches(s: seq<int>, t: seq<int>) {
    exists ps :: |ps| > 0 && IsWalk(ps) && ps[0] == s && ps[|ps| - 1] == t
  }

  /** Moves can be undone, so a walk read backwards is a walk. */
  function Backwards(ps: seq<seq<int>>): (r: seq<seq<int>>)
    requires IsWalk(ps)
    ensures |r| == |ps| && IsWalk(r)
    ensures forall i :: 0 <= i < |ps| ==> r[i] == ps[|ps| - 1 - i]
  {
    var r := seq(|ps|, i requires 0 <= i < |ps| => ps[|ps| - 1 - i]);
    BackwardsMoves(ps, r);
    r
  }

  lemma BackwardsMoves(ps: seq<seq<int>>, r: seq<seq<int>>)
    requires IsWalk(ps) && |r| == |ps|
    requires forall i :: 0 <= i < |ps| ==> r[i] == ps[|ps| - 1 - i]
    ensures IsWalk(r)
  {
    forall k | 0 < k < |r|
      ensures MoveAt(r, k)
    {
      var j := |ps| - k;
      assert r[k - 1] == ps[j];
      assert r[k] == ps[j - 1];
      StepBack(ps, j);
    }
  }

  /** Step j of a walk, taken backwards, is a move. */
  lemma StepBack(ps: seq<seq<int>>, j: nat)
    requires IsWalk(ps) && 0 < j < |ps|
    ensures IsMove(ps[j], ps[j - 1])
  {
    assert MoveAt(ps, j);
    MoveReverse(ps[j - 1], ps[j]);
  }

  lemma NextBoardsAreMoves(s: seq<int>, ts: seq<int>, r: seq<seq<int>>)
    requires IsBoard(s) && ts == BlankTargets(Blank(s))
    requires |r| == |ts| && forall k :: 0 <= k < |r| ==> r[k] == Swap(s, Blank(s), ts[k])
    ensures forall k :: 0 <= k < |r| ==> IsMove(s, r[k]) && Blank(r[k]) == ts[k]
    ensures forall a, b :: 0 <= a < b < |r| ==> r[a] != r[b]
  {
    forall k | 0 <= k < |r|
      ensures IsMove(s, r[k]) && Blank(r[k]) == ts[k]
    {
      assert ts[k] in ts;
      SwapBlank(s, ts[k]);
    }
  }

  lemma NextBoardsComplete(s: seq<int>, ts: seq<int>, r: seq<seq<int>>)
    requires IsBoard(s) && ts == BlankTargets(Blank(s))
    requires |r| == |ts| && forall k :: 0 <= k < |r| ==> r[k] == Swap(s, Blank(s), ts[k])
    ensures forall s' :: IsMove(s, s') ==> s' in r
  {
    forall s' | IsMove(s, s')
      ensures s' in r
    {
      var t := Blank(s');
      assert t in ts;
      var k :| 0 <= k < |ts| && ts[k] == t;
      assert r[k] == s';
    }
  }

  /**
    `generateSuccessors` without the node bookkeeping: one board per legal
    blank move, in the order of BlankTargets.
   */
  function NextBoards(s: seq<int>): (r: seq<seq<int>>)
    requires IsBoard(s)
    ensures |r| == |BlankTargets(Blank(s))|
    ensures forall k :: 0 <= k < |r| ==> IsBoard(r[k])
    ensures forall k :: 0 <= k < |r| ==> IsMove(s, r[k])
    ensures forall k :: 0 <= k < |r| ==> IsBoard(r[k]) && Blank(r[k]) == BlankTargets(Blank(s))[k]
    ensures forall s' :: IsMove(s, s') ==> s' in r
    ensures forall a, b :: 0 <= a < b < |r| ==> r[a] != r[b]
  {
    var z := Blank(s);
    var ts := BlankTargets(z);
    var r := seq(|ts|, k requires 0 <= k < |ts| => Swap(s, z, ts[k]));
    NextBoardsAreMoves(s, ts, r);
    NextBoardsComplete(s, ts, r);
    r
  }
}
