/** Inserting into and removing from a sequence at a position. */
module Sequences {

  function InsertAt<T>(s: seq<T>, i: nat, x: T): (r: seq<T>)
    requires i <= |s|
    ensures |r| == |s| + 1
    ensures forall j {:trigger r[j]} | 0 <= j < |r| :: r[j] == if j < i then s[j] else if j == i then x else s[j - 1]
  {
    seq(|s| + 1, j requires 0 <= j <= |s| => if j < i then s[j] else if j == i then x else s[j - 1])
  }

  function RemoveAt<T>(s: seq<T>, i: nat): (r: seq<T>)
    requires i < |s|
    ensures |r| == |s| - 1
    ensures forall j {:trigger r[j]} | 0 <= j < |r| :: r[j] == if j < i then s[j] else s[j + 1]
  {
    seq(|s| - 1, j requires 0 <= j < |s| - 1 => if j < i then s[j] else s[j + 1])
  }

  lemma InsertRemoved<T>(s: seq<T>, i: nat)
    requires i < |s|
    ensures InsertAt(RemoveAt(s, i), i, s[i]) == s
  {
  }

  lemma InsertedRemoved<T>(s: seq<T>, i: nat, x: T)
    requires i <= |s|
    ensures RemoveAt(InsertAt(s, i, x), i) == s
  {
  }

  lemma TwoPlaces<T>(s: seq<T>, s': seq<T>, i: nat, j: nat)
    requires i < |s| && j < |s| && i != j && |s'| == |s|
    requires forall k {:trigger s'[k]} | 0 <= k < |s| && k != i && k != j :: s'[k] == s[k]
    ensures s' == s[i := s'[i]][j := s'[j]]
  {
  }

  // The first n elements, and the elements from n on.
  function Lower<T>(s: seq<T>, n: nat): (r: seq<T>)
    requires n <= |s|
    ensures |r| == n && forall j {:trigger r[j]} | 0 <= j < n :: r[j] == s[j]
  {
    seq(n, j requires 0 <= j < n => s[j])
  }

  function Upper<T>(s: seq<T>, n: nat): (r: seq<T>)
    requires n <= |s|
    ensures |r| == |s| - n && forall j {:trigger r[j]} | 0 <= j < |r| :: r[j] == s[n + j]
  {
    seq(|s| - n, j requires 0 <= j < |s| - n => s[n + j])
  }

  lemma LowerStep<T>(s: seq<T>, n: nat)
    requires n < |s|
    ensures Lower(s, n + 1) == Lower(s, n) + [s[n]]
  {
  }

  lemma UpperSubset<T>(s: seq<T>, m: nat, n: nat)
    requires m <= n <= |s|
    ensures forall x | x in Upper(s, n) :: x in Upper(s, m)
  {
    forall x | x in Upper(s, n) ensures x in Upper(s, m) {
      var j :| 0 <= j < |s| - n && Upper(s, n)[j] == x;
      assert Upper(s, m)[n - m + j] == x;
    }
  }

  // Cutting a sequence and then inserting into one half is cutting the longer sequence.
  lemma InsertBeforeCut<T>(s: seq<T>, i: nat, half: nat)
    requires i < half < |s|
    ensures InsertAt(Lower(RemoveAt(s, i), half), i, s[i]) == Lower(s, half + 1)
    ensures Upper(RemoveAt(s, i), half) == Upper(s, half + 1)
  {
  }

  lemma InsertAfterCut<T>(s: seq<T>, i: nat, half: nat)
    requires half <= i < |s|
    ensures InsertAt(Upper(RemoveAt(s, i), half), i - half, s[i]) == Upper(s, half)
    ensures Lower(RemoveAt(s, i), half) == Lower(s, half)
    ensures s[i] in Upper(s, half)
    ensures forall x | x != s[i] :: x in Upper(s, half) <==> x in Upper(RemoveAt(s, i), half)
  {
    var u, v := Upper(s, half), Upper(RemoveAt(s, i), half);
    assert u[i - half] == s[i];
    forall x | x != s[i] ensures x in u <==> x in v {
      if x in u {
        var j :| 0 <= j < |u| && u[j] == x;
        assert v[if half + j < i then j else j - 1] == x;
      }
      if x in v {
        var j :| 0 <= j < |v| && v[j] == x;
        assert u[if half + j < i then j else j + 1] == x;
      }
    }
  }

  // ------------------------------------------------------------------
  // Counting

  ghost predicate Distinct<T>(s: seq<T>) {
    forall i, j | 0 <= i < j < |s| :: s[i] != s[j]
  }

  lemma {:induction false} DistinctSize<T>(s: seq<T>, all: set<T>)
    requires Distinct(s) && forall x :: x in s ==> x in all
    ensures |s| <= |all|
    ensures (forall x :: x in all ==> x in s) ==> |s| == |all|
    decreases |s|
  {
    if s == [] {
      if all != {} {
        var x :| x in all;
        assert x !in s;
      }
    } else {
      var last := s[|s| - 1];
      var init := Lower(s, |s| - 1);
      assert forall x :: x in s <==> x in init || x == last by {
        LowerStep(s, |s| - 1);
        assert Lower(s, |s|) == s;
      }
      assert forall j | 0 <= j < |init| :: init[j] == s[j] && s[j] != last;
      DistinctSize(init, all - {last});
    }
  }

  lemma SubsetSize<T>(a: set<T>, b: set<T>)
    requires a <= b
    ensures |a| <= |b|
  {
    assert b == a + (b - a);
    assert a !! (b - a);
  }
}
