/**
  The ordering used by `insertIntoOpenList`: push the index, then sort the
  whole list with a comparator on f. Array.prototype.sort is stable, so the
  result is the unique stable sort of the list by key; it is computed here by
  insertion sort, and the lemma StableSortUnique shows that every stable sort
  gives the same list.
 */
module OpenList {
  import opened Options

  /** Non-decreasing by key. */
  predicate SortedBy(s: seq<nat>, key: nat -> int) {
    forall i, j :: 0 <= i < j < |s| ==> key(s[i]) <= key(s[j])
  }

  /** The entries of s whose key is k, in the order they appear in s. */
  function WithKey(s: seq<nat>, key: nat -> int, k: int): (r: seq<nat>)
    ensures forall x :: x in r ==> x in s && key(x) == k
  {
    if |s| == 0 then [] else (if key(s[0]) == k then [s[0]] else []) + WithKey(s[1..], key, k)
  }

  /** A stable reordering by key: for every key, the entries having it keep their relative order. */
  ghost predicate SameRuns(a: seq<nat>, b: seq<nat>, key: nat -> int) {
    forall k :: WithKey(a, key, k) == WithKey(b, key, k)
  }

  /** Places x before the first entry whose key is larger than x's, so after every tie. */
  function InsertStable(s: seq<nat>, x: nat, key: nat -> int): (r: seq<nat>)
    ensures |r| == |s| + 1
    ensures multiset(r) == multiset(s) + multiset{x}
    ensures forall y :: y in r <==> y == x || y in s
  {
    if |s| == 0 then [x]
    else if key(x) < key(s[0]) then [x] + s
    else
      var r := [s[0]] + InsertStable(s[1..], x, key);
      assert s == [s[0]] + s[1..];
      r
  }

  /** The stable sort of s by key. */
  function StableSort(s: seq<nat>, key: nat -> int): (r: seq<nat>)
    ensures multiset(r) == multiset(s)
    ensures SortedBy(r, key)
    ensures SameRuns(r, s, key)
    decreases |s|
  {
    if |s| == 0 then []
    else
      var init, last := s[..|s| - 1], s[|s| - 1];
      var sortedInit := StableSort(init, key);
      assert s == init + [last];
      InsertKeepsSorted(sortedInit, last, key);
      InsertLastKeepsRuns(init, sortedInit, last, key);
      InsertStable(sortedInit, last, key)
  }

  lemma {:induction false} WithKeyConcat(a: seq<nat>, b: seq<nat>, key: nat -> int, k: int)
    ensures WithKey(a + b, key, k) == WithKey(a, key, k) + WithKey(b, key, k)
  {
    if |a| == 0 {
      assert a + b == b;
    } else {
      assert (a + b)[0] == a[0];
      assert (a + b)[1..] == a[1..] + b;
      WithKeyConcat(a[1..], b, key, k);
    }
  }

  lemma {:induction false} WithKeyAbsent(s: seq<nat>, key: nat -> int, k: int)
    requires forall i :: 0 <= i < |s| ==> key(s[i]) != k
    ensures WithKey(s, key, k) == []
  {
    if |s| > 0 {
      WithKeyAbsent(s[1..], key, k);
    }
  }

  /** Inserting into a sorted list keeps it sorted. */
  lemma {:induction false} InsertKeepsSorted(s: seq<nat>, x: nat, key: nat -> int)
    requires SortedBy(s, key)
    ensures SortedBy(InsertStable(s, x, key), key)
  {
    if |s| > 0 && key(x) >= key(s[0]) {
      var rest := InsertStable(s[1..], x, key);
      InsertKeepsSorted(s[1..], x, key);
      forall j | 0 <= j < |rest|
        ensures key(s[0]) <= key(rest[j])
      {
        assert rest[j] in rest;
        if rest[j] != x {
          var m :| 0 <= m < |s[1..]| && s[1..][m] == rest[j];
          assert s[m + 1] == rest[j];
        }
      }
      assert InsertStable(s, x, key) == [s[0]] + rest;
    }
  }

  /** Inserting into a sorted list appends x to the run of its key and leaves the other runs alone. */
  lemma {:induction false} InsertKeepsRuns(s: seq<nat>, x: nat, key: nat -> int, k: int)
    requires SortedBy(s, key)
    ensures WithKey(InsertStable(s, x, key), key, k)
         == WithKey(s, key, k) + (if key(x) == k then [x] else [])
  {
    if |s| == 0 {
      assert [x][1..] == [];
    } else if key(x) < key(s[0]) {
      assert ([x] + s)[1..] == s;
      if key(x) == k {
        WithKeyAbsent(s, key, k);
      }
    } else {
      var rest := InsertStable(s[1..], x, key);
      var head := if key(s[0]) == k then [s[0]] else [];
      var tail := if key(x) == k then [x] else [];
      InsertKeepsRuns(s[1..], x, key, k);
      assert ([s[0]] + rest)[0] == s[0] && ([s[0]] + rest)[1..] == rest;
      assert WithKey(InsertStable(s, x, key), key, k) == head + WithKey(rest, key, k);
      assert WithKey(s, key, k) == head + WithKey(s[1..], key, k);
      AppendAssoc(head, WithKey(s[1..], key, k), tail);
    }
  }

  lemma InsertLastKeepsRuns(init: seq<nat>, sortedInit: seq<nat>, last: nat, key: nat -> int)
    requires SortedBy(sortedInit, key) && SameRuns(sortedInit, init, key)
    ensures SameRuns(InsertStable(sortedInit, last, key), init + [last], key)
  {
    forall k
      ensures WithKey(InsertStable(sortedInit, last, key), key, k) == WithKey(init + [last], key, k)
    {
      InsertKeepsRuns(sortedInit, last, key, k);
      WithKeyConcat(init, [last], key, k);
      assert [last][1..] == [];
    }
  }

  /** Only the empty list has no runs. */
  lemma EmptyRuns(a: seq<nat>, b: seq<nat>, key: nat -> int)
    requires SameRuns(a, b, key) && |a| == 0
    ensures |b| == 0
  {
    if |b| > 0 {
      OwnRunNonEmpty(b, key);
      assert false;
    }
  }

  lemma OwnRunNonEmpty(b: seq<nat>, key: nat -> int)
    requires |b| > 0
    ensures WithKey(b, key, key(b[0])) != []
  {
  }

  /** Two sorted lists with the same runs start with the same entry: the first of the smallest key. */
  lemma HeadsAgree(a: seq<nat>, b: seq<nat>, key: nat -> int)
    requires SortedBy(a, key) && SortedBy(b, key) && SameRuns(a, b, key)
    requires |a| > 0 && |b| > 0
    ensures a[0] == b[0]
  {
    var ka, kb := key(a[0]), key(b[0]);
    assert WithKey(a, key, ka)[0] == a[0];
    assert WithKey(b, key, kb)[0] == b[0];
    var xb := WithKey(b, key, ka)[0];
    assert xb in WithKey(b, key, ka);
    var ib :| 0 <= ib < |b| && b[ib] == xb;
    var xa := WithKey(a, key, kb)[0];
    assert xa in WithKey(a, key, kb);
    var ia :| 0 <= ia < |a| && a[ia] == xa;
    assert ka == kb by {
      assert key(b[0]) <= key(b[ib]);
      assert key(a[0]) <= key(a[ia]);
    }
  }

  lemma TailRuns(a: seq<nat>, b: seq<nat>, key: nat -> int)
    requires SameRuns(a, b, key) && |a| > 0 && |b| > 0 && a[0] == b[0]
    ensures SameRuns(a[1..], b[1..], key)
  {
    forall k
      ensures WithKey(a[1..], key, k) == WithKey(b[1..], key, k)
    {
      var head := if key(a[0]) == k then [a[0]] else [];
      assert WithKey(a, key, k) == head + WithKey(a[1..], key, k);
      assert WithKey(b, key, k) == head + WithKey(b[1..], key, k);
      assert WithKey(a, key, k) == WithKey(b, key, k);
      assert WithKey(a[1..], key, k) == WithKey(a, key, k)[|head|..];
      assert WithKey(b[1..], key, k) == WithKey(b, key, k)[|head|..];
    }
  }

  /**
    A sorted list is determined by its runs: two sorted lists that agree on the
    entries of every key, in order, are equal. So any stable sort by f yields
    the list StableSort yields.
   */
  lemma {:induction false} StableSortUnique(a: seq<nat>, b: seq<nat>, key: nat -> int)
    requires SortedBy(a, key) && SortedBy(b, key)
    requires SameRuns(a, b, key)
    ensures a == b
    decreases |a|
  {
    if |a| == 0 {
      EmptyRuns(a, b, key);
    } else if |b| == 0 {
      EmptyRuns(b, a, key);
    } else {
      HeadsAgree(a, b, key);
      TailRuns(a, b, key);
      StableSortUnique(a[1..], b[1..], key);
      assert a == [a[0]] + a[1..];
      assert b == [b[0]] + b[1..];
    }
  }
}
