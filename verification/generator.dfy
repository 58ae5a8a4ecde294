/**
  `shuffleState` and `generateSolvableState`. The random numbers the source
  draws from Math.random are supplied by the caller as a sequence of choice
  indices; a choice is reduced modulo the number of legal moves, which covers
  every value `Math.floor(Math.random() * possibleMoves.length)` can take.
 */
module Generator {
  import opened Options
  import opened Board
  import opened Solvability

  /** The default `moves` argument of `shuffleState`. */
  const Moves: nat := 100

  /** One pass of the loop of `shuffleState`: swap the blank with the chosen legal neighbour. */
  function ShuffleStep(s: seq<int>, c: nat): (r: seq<int>)
    requires IsBoard(s)
    ensures IsMove(s, r)
    ensures Blank(r) == BlankTargets(Blank(s))[c % |BlankTargets(Blank(s))|]
  {
    var z := Blank(s);
    var ts := BlankTargets(z);
    var t := ts[c % |ts|];
    assert t in ts;
    SwapBlank(s, t);
    Swap(s, z, t)
  }

  /** `shuffleState(s, |cs|)`: one move per choice, in order. */
  function Shuffle(s: seq<int>, cs: seq<nat>): (r: seq<int>)
    requires IsBoard(s)
    ensures IsBoard(r)
    ensures Solvable(r) == Solvable(s)
    decreases |cs|
  {
    if |cs| == 0 then s
    else
      var next := ShuffleStep(s, cs[0]);
      MoveKeepsParity(s, next);
      Shuffle(next, cs[1..])
  }

  lemma ShuffleUnfold(s: seq<int>, cs: seq<nat>)
    requires IsBoard(s) && |cs| > 0
    ensures Shuffle(s, cs) == Shuffle(ShuffleStep(s, cs[0]), cs[1..])
  {
  }

  /** The boards `shuffleState` passes through, from s to its result. */
  function ShuffleTrace(s: seq<int>, cs: seq<nat>): (ps: seq<seq<int>>)
    requires IsBoard(s)
    ensures |ps| == |cs| + 1
    ensures ps[0] == s && ps[|cs|] == Shuffle(s, cs)
    decreases |cs|
  {
    if |cs| == 0 then [s]
    else
      ShuffleUnfold(s, cs);
      [s] + ShuffleTrace(ShuffleStep(s, cs[0]), cs[1..])
  }

  /** Every step of the shuffle is a legal move, so its trace is a walk. */
  lemma {:induction false} ShuffleTraceWalk(s: seq<int>, cs: seq<nat>)
    requires IsBoard(s)
    ensures IsWalk(ShuffleTrace(s, cs))
    decreases |cs|
  {
    if |cs| > 0 {
      var next := ShuffleStep(s, cs[0]);
      ShuffleTraceWalk(next, cs[1..]);
      var rest := ShuffleTrace(next, cs[1..]);
      assert ShuffleTrace(s, cs) == [s] + rest;
      WalkCons(s, rest);
    }
  }

  /**
    `generateSolvableState`: shuffle the goal with the next Moves choices until
    the result passes the parity test. None when the choices run out, which
    the source cannot experience.
   */
  function GenerateSolvable(rand: seq<nat>): (r: Option<seq<int>>)
    ensures r.Some? ==> IsBoard(r.value) && Solvable(r.value)
    decreases |rand|
  {
    if |rand| < Moves then None
    else
      GoalIsBoard();
      var s := Shuffle(Goal, rand[..Moves]);
      if Solvable(s) then Some(s) else GenerateSolvable(rand[Moves..])
  }

  /**
    Every walk from the goal keeps the goal's even parity, so the first
    attempt is always accepted and the retry loop never repeats.
   */
  lemma GenerateFirstAttempt(rand: seq<nat>)
    requires |rand| >= Moves
    ensures GenerateSolvable(rand) == Some(Shuffle(Goal, rand[..Moves]))
  {
    GoalSolvable();
  }

  /** Every shuffled board leads back to where the shuffle started: replay its moves backwards. */
  lemma ShuffleReachesBack(s: seq<int>, cs: seq<nat>)
    requires IsBoard(s)
    ensures Reaches(Shuffle(s, cs), s)
  {
    ShuffleTraceWalk(s, cs);
    var ps := Backwards(ShuffleTrace(s, cs));
    assert ps[0] == Shuffle(s, cs) && ps[|ps| - 1] == s;
  }
}
