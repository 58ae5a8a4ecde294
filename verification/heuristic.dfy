/**
  `calculateHn`: the sum over the tiles other than the blank of the Manhattan
  distance between a tile's cell and its cell in the goal.
 */
module Heuristic {
  import opened Board

  /** The cell where tile v belongs: tile v at cell v - 1, the blank at the last cell. */
  function GoalPos(v: int): (p: nat)
    requires 0 <= v < 9
    ensures p < 9 && Goal[p] == v
  {
    if v == 0 then 8 else v - 1
  }

  /** GoalPos is `targetStateData.indexOf(v)`. */
  lemma GoalPosIsIndexOf(v: int)
    requires 0 <= v < 9
    ensures v in Goal && GoalPos(v) == IndexOf(Goal, v)
  {
    var p := GoalPos(v);
    assert Goal[p] == v;
    var q := IndexOf(Goal, v);
    GoalIsBoard();
    assert Goal[q] == Goal[p];
  }

  /** What tile v standing in cell i adds to the estimate; the blank adds nothing. */
  function Cost(v: int, i: nat): nat
    requires 0 <= v < 9 && i < 9
  {
    if v == 0 then 0 else Manhattan(i, GoalPos(v))
  }

  /** The loop of `calculateHn` from cell i on. */
  function HFrom(s: seq<int>, i: nat): nat
    requires Tiles(s) && i <= 9
    decreases 9 - i
  {
    if i == 9 then 0 else Cost(s[i], i) + HFrom(s, i + 1)
  }

  /** `calculateHn`. */
  function H(s: seq<int>): nat
    requires Tiles(s)
  {
    HFrom(s, 0)
  }

  lemma ManhattanZero(a: nat, b: nat)
    requires a < 9 && b < 9
    ensures Manhattan(a, b) == 0 <==> a == b
  {
  }

  /** One step to a neighbouring cell brings a cell one closer to, or one further from, any cell. */
  lemma AdjacentDistance(a: nat, b: nat, g: nat)
    requires Adjacent(a, b) && g < 9
    ensures Manhattan(a, g) == Manhattan(b, g) + 1 || Manhattan(b, g) == Manhattan(a, g) + 1
  {
  }

  lemma {:induction false} HFromZero(s: seq<int>, i: nat)
    requires Tiles(s) && i <= 9
    ensures HFrom(s, i) == 0 <==> forall j :: i <= j < 9 ==> Cost(s[j], j) == 0
    decreases 9 - i
  {
    if i < 9 {
      HFromZero(s, i + 1);
      assert HFrom(s, i) == Cost(s[i], i) + HFrom(s, i + 1);
      if HFrom(s, i) == 0 {
        forall j | i <= j < 9
          ensures Cost(s[j], j) == 0
        {
          if j > i {
            assert i + 1 <= j < 9;
          }
        }
      }
    }
  }

  lemma GoalCostsZero()
    ensures Tiles(Goal)
    ensures forall j :: 0 <= j < 9 ==> Cost(Goal[j], j) == 0
  {
    forall j | 0 <= j < 9
      ensures 0 <= Goal[j] < 9 && Cost(Goal[j], j) == 0
    {
      assert Goal[j] == if j == 8 then 0 else j + 1;
    }
  }

  /** A tile that adds nothing stands where the goal has it. */
  lemma ZeroCostsMatchGoal(s: seq<int>)
    requires Tiles(s) && forall j :: 0 <= j < 9 ==> Cost(s[j], j) == 0
    ensures forall j :: 0 <= j < 9 && s[j] != 0 ==> s[j] == Goal[j]
  {
    forall j | 0 <= j < 9 && s[j] != 0
      ensures s[j] == Goal[j]
    {
      assert Cost(s[j], j) == 0;
      ManhattanZero(j, GoalPos(s[j]));
    }
  }

  /** A board agreeing with the goal on every tile cell is the goal: the blank has nowhere else to be. */
  lemma TilesMatchGoal(s: seq<int>)
    requires IsBoard(s)
    requires forall j :: 0 <= j < 9 && s[j] != 0 ==> s[j] == Goal[j]
    ensures s == Goal
  {
    GoalIsBoard();
    assert s[8] == 0;
    forall j | 0 <= j < 9
      ensures s[j] == Goal[j]
    {
      assert j != 8 ==> s[j] != s[8];
    }
  }

  /** The estimate is zero exactly on the goal. */
  lemma HZeroIffGoal(s: seq<int>)
    requires IsBoard(s)
    ensures Tiles(s)
    ensures H(s) == 0 <==> s == Goal
  {
    if H(s) == 0 {
      HFromZero(s, 0);
      ZeroCostsMatchGoal(s);
      TilesMatchGoal(s);
    }
    if s == Goal {
      GoalCostsZero();
      HFromZero(Goal, 0);
    }
  }

  /** Writing v into cell k changes the sum by exactly the change of that cell's term. */
  lemma {:induction false} HFromUpdate(s: seq<int>, k: nat, v: int, i: nat)
    requires Tiles(s) && k < 9 && 0 <= v < 9 && i <= 9
    ensures Tiles(s[k := v])
    ensures HFrom(s[k := v], i) + (if i <= k then Cost(s[k], k) else 0)
         == HFrom(s, i) + (if i <= k then Cost(v, k) else 0)
    decreases 9 - i
  {
    if i < 9 {
      HFromUpdate(s, k, v, i + 1);
    }
  }

  /**
    Consistency: a single move changes the estimate by exactly one, because
    exactly one tile moves, to a neighbouring cell.
   */
  lemma MoveChangesHByOne(s: seq<int>, s': seq<int>)
    requires IsMove(s, s')
    ensures Tiles(s) && Tiles(s')
    ensures H(s') == H(s) + 1 || H(s) == H(s') + 1
  {
    var z, t := Blank(s), Blank(s');
    var w := s[t];
    var mid := s[z := w];
    assert s' == mid[t := 0];
    HFromUpdate(s, z, w, 0);
    HFromUpdate(mid, t, 0, 0);
    AdjacentDistance(z, t, GoalPos(w));
  }

  /**
    Admissibility: along any walk of legal moves that ends at the goal, the
    estimate of the first board is at most the number of moves.
   */
  lemma {:induction false} Admissible(ps: seq<seq<int>>)
    requires |ps| > 0 && IsWalk(ps) && ps[|ps| - 1] == Goal
    requires IsBoard(ps[0])
    ensures Tiles(ps[0])
    ensures H(ps[0]) <= |ps| - 1
  {
    if |ps| == 1 {
      HZeroIffGoal(ps[0]);
    } else {
      var rest := ps[1..];
      assert rest[0] == ps[1] && rest[|rest| - 1] == ps[|ps| - 1];
      assert MoveAt(ps, 1);
      WalkTail(ps);
      Admissible(rest);
      StepBound(ps[0], ps[1], |rest| - 1);
    }
  }

  /** A board one move before a board within n of the goal is within n + 1. */
  lemma StepBound(s: seq<int>, s': seq<int>, n: nat)
    requires IsMove(s, s') && Tiles(s') && H(s') <= n
    ensures Tiles(s) && H(s) <= n + 1
  {
    MoveChangesHByOne(s, s');
  }
}
