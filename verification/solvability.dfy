/**
  The parity test `isSolvable`: a board is accepted when the tiles other than
  the blank, read in order, contain an even number of inversions.
 */
module Solvability {
  import opened Options
  import opened Board

  /** `state.filter(n => n !== 0)`. */
  function NonBlank(s: seq<int>): (r: seq<int>)
    ensures forall x :: x in r <==> x in s && x != 0
    ensures |r| <= |s|
  {
    if |s| == 0 then [] else (if s[0] == 0 then [] else [s[0]]) + NonBlank(s[1..])
  }

  /** Number of entries of t smaller than x. */
  function CountBelow(x: int, t: seq<int>): nat {
    if |t| == 0 then 0 else (if t[0] < x then 1 else 0) + CountBelow(x, t[1..])
  }

  /** Number of pairs i < j with a[i] > a[j]. */
  function Inversions(a: seq<int>): nat {
    if |a| == 0 then 0 else CountBelow(a[0], a[1..]) + Inversions(a[1..])
  }

  /** Inversions between an entry of p and a later entry of q. */
  function Cross(p: seq<int>, q: seq<int>): nat {
    if |p| == 0 then 0 else CountBelow(p[0], q) + Cross(p[1..], q)
  }

  predicate Solvable(s: seq<int>) {
    Inversions(NonBlank(s)) % 2 == 0
  }

  lemma {:induction false} NonBlankConcat(a: seq<int>, b: seq<int>)
    ensures NonBlank(a + b) == NonBlank(a) + NonBlank(b)
  {
    if |a| == 0 {
      assert a + b == b;
    } else {
      var head := if a[0] == 0 then [] else [a[0]];
      assert (a + b)[0] == a[0];
      assert (a + b)[1..] == a[1..] + b;
      assert NonBlank(a + b) == head + NonBlank(a[1..] + b);
      NonBlankConcat(a[1..], b);
      assert NonBlank(a) == head + NonBlank(a[1..]);
      AppendAssoc(head, NonBlank(a[1..]), NonBlank(b));
    }
  }

  /** Without a blank the filter keeps everything. */
  lemma {:induction false} NonBlankNoBlank(a: seq<int>)
    requires forall i :: 0 <= i < |a| ==> a[i] != 0
    ensures NonBlank(a) == a
  {
    if |a| > 0 {
      NonBlankNoBlank(a[1..]);
      assert a == [a[0]] + a[1..];
    }
  }

  lemma {:induction false} CountBelowConcat(x: int, a: seq<int>, b: seq<int>)
    ensures CountBelow(x, a + b) == CountBelow(x, a) + CountBelow(x, b)
  {
    if |a| == 0 {
      assert a + b == b;
    } else {
      assert (a + b)[0] == a[0];
      assert (a + b)[1..] == a[1..] + b;
      CountBelowConcat(x, a[1..], b);
    }
  }

  lemma {:induction false} CrossConcatRight(p: seq<int>, a: seq<int>, b: seq<int>)
    ensures Cross(p, a + b) == Cross(p, a) + Cross(p, b)
  {
    if |p| > 0 {
      CountBelowConcat(p[0], a, b);
      CrossConcatRight(p[1..], a, b);
    }
  }

  /** Inversions of a concatenation: those inside each part plus those across. */
  lemma {:induction false} InversionsConcat(p: seq<int>, q: seq<int>)
    ensures Inversions(p + q) == Inversions(p) + Inversions(q) + Cross(p, q)
  {
    if |p| == 0 {
      assert p + q == q;
    } else {
      assert (p + q)[0] == p[0];
      assert (p + q)[1..] == p[1..] + q;
      CountBelowConcat(p[0], p[1..], q);
      InversionsConcat(p[1..], q);
    }
  }

  lemma CountBelowOne(x: int, a: int)
    ensures CountBelow(x, [a]) == (if a < x then 1 else 0)
  {
    assert [a][1..] == [];
  }

  lemma CountBelowThree(x: int, a: int, b: int, c: int)
    ensures CountBelow(x, [a, b, c])
      == (if a < x then 1 else 0) + (if b < x then 1 else 0) + (if c < x then 1 else 0)
  {
    assert [a, b, c][1..] == [b, c];
    assert [b, c][1..] == [c];
    CountBelowOne(x, c);
    assert CountBelow(x, [b, c]) == (if b < x then 1 else 0) + CountBelow(x, [c]);
    assert CountBelow(x, [a, b, c]) == (if a < x then 1 else 0) + CountBelow(x, [b, c]);
  }

  lemma InversionsThree(a: int, b: int, c: int)
    ensures Inversions([a, b, c])
      == (if b < a then 1 else 0) + (if c < a then 1 else 0) + (if c < b then 1 else 0)
  {
    assert [a, b, c][1..] == [b, c];
    assert [b, c][1..] == [c];
    assert [c][1..] == [];
    CountBelowOne(b, c);
    assert CountBelow(a, [b, c]) == (if b < a then 1 else 0) + CountBelow(a, [c]);
    CountBelowOne(a, c);
    assert Inversions([c]) == CountBelow(c, []) + Inversions([]);
    assert Inversions([b, c]) == CountBelow(b, [c]) + Inversions([c]);
    assert Inversions([a, b, c]) == CountBelow(a, [b, c]) + Inversions([b, c]);
  }

  lemma CrossThree(a: int, b: int, c: int, q: seq<int>)
    ensures Cross([a, b, c], q) == CountBelow(a, q) + CountBelow(b, q) + CountBelow(c, q)
  {
    assert [a, b, c][1..] == [b, c];
    assert [b, c][1..] == [c];
    assert [c][1..] == [];
    assert Cross([c], q) == CountBelow(c, q) + Cross([], q);
    assert Cross([b, c], q) == CountBelow(b, q) + Cross([c], q);
    assert Cross([a, b, c], q) == CountBelow(a, q) + Cross([b, c], q);
  }

  /** Moving the third of three entries to the front leaves the cross counts to its left alone. */
  lemma {:induction false} CrossRotateLeft(p: seq<int>, x: int, y: int, w: int)
    ensures Cross(p, [x, y, w]) == Cross(p, [w, x, y])
  {
    if |p| > 0 {
      CountBelowThree(p[0], x, y, w);
      CountBelowThree(p[0], w, x, y);
      CrossRotateLeft(p[1..], x, y, w);
    }
  }

  /**
    A tile jumping over two others changes the inversion count by -2, 0 or +2,
    so the parity survives.
   */
  lemma RotateParity(p: seq<int>, x: int, y: int, w: int, q: seq<int>)
    requires w != x && w != y
    ensures Inversions(p + ([x, y, w] + q)) % 2 == Inversions(p + ([w, x, y] + q)) % 2
  {
    InversionsConcat(p, [x, y, w] + q);
    InversionsConcat([x, y, w], q);
    CrossConcatRight(p, [x, y, w], q);
    InversionsConcat(p, [w, x, y] + q);
    InversionsConcat([w, x, y], q);
    CrossConcatRight(p, [w, x, y], q);
    CrossRotateLeft(p, x, y, w);
    CrossThree(x, y, w, q);
    CrossThree(w, x, y, q);
    var before: int, after: int := Inversions(p + ([x, y, w] + q)), Inversions(p + ([w, x, y] + q));
    assert before - after == Inversions([x, y, w]) - Inversions([w, x, y]);
    RotateThreeEven(x, y, w);
    EvenDifference(before, after);
  }

  /** Rotating three entries changes their own inversion count by -2, 0 or +2. */
  lemma RotateThreeEven(x: int, y: int, w: int)
    requires w != x && w != y
    ensures Inversions([x, y, w]) - Inversions([w, x, y]) in {-2, 0, 2}
  {
    InversionsThree(x, y, w);
    InversionsThree(w, x, y);
  }

  lemma EvenDifference(a: int, b: int)
    requires a - b in {-2, 0, 2}
    ensures a % 2 == b % 2
  {
  }

  /** The blank moving right: the order of the tiles is unchanged. */
  lemma SwapRightKeepsOrder(s: seq<int>, z: nat)
    requires z + 1 < |s| && s[z] == 0
    ensures NonBlank(Swap(s, z, z + 1)) == NonBlank(s)
  {
    var v := s[z + 1];
    var pre, post := s[..z], s[z + 2..];
    assert s == pre + ([0, v] + post);
    assert Swap(s, z, z + 1) == pre + ([v, 0] + post);
    NonBlankConcat(pre, [0, v] + post);
    NonBlankConcat([0, v], post);
    NonBlankConcat(pre, [v, 0] + post);
    NonBlankConcat([v, 0], post);
    assert [0, v][1..] == [v];
    assert [v, 0][1..] == [0];
    assert [v][1..] == [];
    assert [0][1..] == [];
  }

  lemma RotateKeepsParity(pre: seq<int>, x: int, y: int, w: int, post: seq<int>)
    requires x != 0 && y != 0 && w != 0 && w != x && w != y
    ensures Solvable(pre + ([0, x, y, w] + post)) == Solvable(pre + ([w, x, y, 0] + post))
  {
    assert NonBlank([0, x, y, w]) == [x, y, w] by {
      assert [0, x, y, w] == [0] + [x, y, w];
      NonBlankConcat([0], [x, y, w]);
      NonBlankNoBlank([x, y, w]);
      assert [0][1..] == [];
    }
    assert NonBlank([w, x, y, 0]) == [w, x, y] by {
      assert [w, x, y, 0] == [w, x, y] + [0];
      NonBlankConcat([w, x, y], [0]);
      NonBlankNoBlank([w, x, y]);
      assert [0][1..] == [];
    }
    NonBlankConcat(pre, [0, x, y, w] + post);
    NonBlankConcat([0, x, y, w], post);
    NonBlankConcat(pre, [w, x, y, 0] + post);
    NonBlankConcat([w, x, y, 0], post);
    RotateParity(NonBlank(pre), x, y, w, NonBlank(post));
  }

  /** The blank moving down: the tile below jumps over the two tiles in between. */
  lemma SwapDownKeepsParity(s: seq<int>, z: nat)
    requires z + 3 < |s| && s[z] == 0
    requires s[z + 1] != 0 && s[z + 2] != 0 && s[z + 3] != 0
    requires s[z + 3] != s[z + 1] && s[z + 3] != s[z + 2]
    ensures Solvable(Swap(s, z, z + 3)) == Solvable(s)
  {
    var x, y, w := s[z + 1], s[z + 2], s[z + 3];
    var pre, post := s[..z], s[z + 4..];
    assert s == pre + ([0, x, y, w] + post);
    assert Swap(s, z, z + 3) == pre + ([w, x, y, 0] + post);
    RotateKeepsParity(pre, x, y, w, post);
  }

  /** A move to a higher cell (right or down) keeps the parity. */
  lemma ForwardMoveKeepsParity(s: seq<int>, s': seq<int>)
    requires IsMove(s, s') && Blank(s) < Blank(s')
    ensures Solvable(s) == Solvable(s')
  {
    var z, t := Blank(s), Blank(s');
    if t == z + 1 {
      SwapRightKeepsOrder(s, z);
    } else {
      assert t == z + 3;
      SwapDownKeepsParity(s, z);
    }
  }

  /** Every legal move keeps the inversion parity, hence solvability. */
  lemma MoveKeepsParity(s: seq<int>, s': seq<int>)
    requires IsMove(s, s')
    ensures Solvable(s) == Solvable(s')
  {
    if Blank(s) < Blank(s') {
      ForwardMoveKeepsParity(s, s');
    } else {
      MoveReverse(s, s');
      ForwardMoveKeepsParity(s', s);
    }
  }

  /** Boards reached from a solvable board by legal moves stay solvable. */
  lemma {:induction false} WalkKeepsParity(ps: seq<seq<int>>)
    requires IsWalk(ps) && |ps| > 0
    ensures Solvable(ps[0]) == Solvable(ps[|ps| - 1])
  {
    if |ps| > 1 {
      WalkPrefix(ps, |ps| - 1);
      WalkKeepsParity(ps[..|ps| - 1]);
      assert MoveAt(ps, |ps| - 1);
      MoveKeepsParity(ps[|ps| - 2], ps[|ps| - 1]);
    }
  }

  /** An ascending sequence has no inversions. */
  lemma {:induction false} AscendingNoInversions(a: seq<int>)
    requires forall i, j :: 0 <= i < j < |a| ==> a[i] < a[j]
    ensures Inversions(a) == 0
  {
    if |a| > 0 {
      NoneBelow(a[0], a[1..]);
      AscendingNoInversions(a[1..]);
    }
  }

  lemma {:induction false} NoneBelow(x: int, t: seq<int>)
    requires forall i :: 0 <= i < |t| ==> x < t[i]
    ensures CountBelow(x, t) == 0
  {
    if |t| > 0 {
      NoneBelow(x, t[1..]);
    }
  }

  /** The goal has no inversions, so it passes the test. */
  lemma GoalSolvable()
    ensures Inversions(NonBlank(Goal)) == 0
    ensures Solvable(Goal)
  {
    var tiles := seq(8, i requires 0 <= i < 8 => i + 1);
    assert Goal == tiles + [0];
    NonBlankConcat(tiles, [0]);
    NonBlankNoBlank(tiles);
    assert [0][1..] == [];
    assert NonBlank([0]) == [];
    assert NonBlank(Goal) == tiles;
    AscendingNoInversions(tiles);
  }

  lemma CountBelowSnoc(x: int, t: seq<int>, lo: nat, j: nat)
    requires lo <= j < |t|
    ensures CountBelow(x, t[lo..j + 1]) == CountBelow(x, t[lo..j]) + (if t[j] < x then 1 else 0)
  {
    assert t[lo..j + 1] == t[lo..j] + [t[j]];
    CountBelowConcat(x, t[lo..j], [t[j]]);
    CountBelowOne(x, t[j]);
  }

  /** `isSolvable`: the nested loops of the source counting inversions among the tiles. */
  method IsSolvable(state: seq<int>) returns (b: bool)
    ensures b <==> Solvable(state)
  {
    var inversions := 0;
    var tiles := NonBlank(state);
    var i := 0;
    while i < |tiles| - 1
      invariant 0 <= i <= |tiles|
      invariant inversions + Inversions(tiles[i..]) == Inversions(tiles)
    {
      InversionsFrom(tiles, i);
      var below := CountBelowFrom(tiles, i);
      inversions := inversions + below;
      i := i + 1;
    }
    InversionsShort(tiles[i..]);
    return inversions % 2 == 0;
  }

  /** The inner loop of `isSolvable`: how many tiles after position i are smaller than tiles[i]. */
  method CountBelowFrom(tiles: seq<int>, i: nat) returns (c: nat)
    requires i < |tiles|
    ensures c == CountBelow(tiles[i], tiles[i + 1..])
  {
    c := 0;
    var j := i + 1;
    assert tiles[i + 1..j] == [];
    while j < |tiles|
      invariant i + 1 <= j <= |tiles|
      invariant c == CountBelow(tiles[i], tiles[i + 1..j])
    {
      CountBelowSnoc(tiles[i], tiles, i + 1, j);
      if tiles[i] > tiles[j] {
        c := c + 1;
      }
      j := j + 1;
    }
    assert tiles[i + 1..j] == tiles[i + 1..];
  }

  /** Unfolding Inversions at position i of t. */
  lemma InversionsFrom(t: seq<int>, i: nat)
    requires i < |t|
    ensures Inversions(t[i..]) == CountBelow(t[i], t[i + 1..]) + Inversions(t[i + 1..])
  {
    assert t[i..][1..] == t[i + 1..];
  }

  /** A list of at most one entry has no inversions. */
  lemma InversionsShort(t: seq<int>)
    requires |t| <= 1
    ensures Inversions(t) == 0
  {
    if |t| == 1 {
      assert t[1..] == [];
    }
  }
}
