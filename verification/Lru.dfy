/** The order of a least-recently-used list over any trace of accesses. */
module Lru {
  import opened Sequences

  // s without its occurrences of n.
  function Without(s: seq<nat>, n: nat): (r: seq<nat>)
    ensures n !in s ==> r == s
  {
    if s == [] then []
    else if s[0] == n then Without(s[1..], n)
    else [s[0]] + Without(s[1..], n)
  }

  lemma {:induction false} WithoutIn(s: seq<nat>, n: nat)
    ensures n !in Without(s, n) && forall x | x != n :: x in s <==> x in Without(s, n)
  {
    if s != [] {
      WithoutIn(s[1..], n);
    }
  }

  // The page numbers of the list after page n was asked for: a hit moves n to the front, a miss puts it there,
  // after dropping the last one from a full list.
  function Touch(maxPages: nat, list: seq<nat>, n: nat): seq<nat> {
    if n in list then [n] + Without(list, n)
    else if |list| >= maxPages && list != [] then [n] + list[..|list| - 1]
    else [n] + list
  }

  function Run(maxPages: nat, trace: seq<nat>): seq<nat> {
    if trace == [] then []
    else Touch(maxPages, Run(maxPages, trace[..|trace| - 1]), trace[|trace| - 1])
  }

  lemma RunStep(maxPages: nat, trace: seq<nat>, n: nat)
    ensures Run(maxPages, trace + [n]) == Touch(maxPages, Run(maxPages, trace), n)
  {
    assert (trace + [n])[..|trace|] == trace;
  }

  // The different pages of a trace, the most recent first.
  function Recency(trace: seq<nat>): (r: seq<nat>)
    ensures forall x :: x in trace <==> x in r
    ensures Distinct(r)
  {
    if trace == [] then []
    else
      var n := trace[|trace| - 1];
      var r := Recency(trace[..|trace| - 1]);
      assert trace == trace[..|trace| - 1] + [n];
      WithoutDistinct(r, n);
      WithoutIn(r, n);
      [n] + Without(r, n)
  }

  function Cut(s: seq<nat>, n: nat): seq<nat> {
    if |s| <= n then s else s[..n]
  }

  lemma {:induction false} WithoutDistinct(s: seq<nat>, n: nat)
    requires Distinct(s)
    ensures Distinct(Without(s, n))
  {
    if s != [] {
      WithoutDistinct(s[1..], n);
      if s[0] != n {
        var r := Without(s[1..], n);
        WithoutIn(s[1..], n);
        forall j | 0 <= j < |r| ensures r[j] != s[0] {
          assert r[j] in s[1..];
        }
      }
    }
  }

  // r is s with its element number i left out.
  ghost predicate LeftOut(s: seq<nat>, i: nat, r: seq<nat>) {
    && i < |s| && |r| == |s| - 1
    && forall j {:trigger r[j]} | 0 <= j < |r| :: r[j] == if j < i then s[j] else s[j + 1]
  }

  // Where the elements differ, leaving one out is cutting it out at its place.
  lemma {:induction false} WithoutAt(s: seq<nat>, i: nat)
    requires Distinct(s) && i < |s|
    ensures LeftOut(s, i, Without(s, s[i]))
  {
    DistinctTail(s);
    if i > 0 {
      assert s[1..][i - 1] == s[i] && s[i] != s[0];
      WithoutAt(s[1..], i - 1);
      LeftOutBehind(s, i, Without(s[1..], s[i]));
    }
  }

  lemma LeftOutBehind(s: seq<nat>, i: nat, r: seq<nat>)
    requires 0 < i < |s| && LeftOut(s[1..], i - 1, r)
    ensures LeftOut(s, i, [s[0]] + r)
  {
    var all := [s[0]] + r;
    forall j | 0 <= j < |all| ensures all[j] == if j < i then s[j] else s[j + 1] {
      if j > 0 {
        assert all[j] == r[j - 1];
      }
    }
  }

  // Leaving n out after cutting, where n is among the elements kept.
  lemma WithoutCutInside(s: seq<nat>, n: nat, k: nat)
    requires Distinct(s) && n in Cut(s, k + 1)
    ensures Without(Cut(s, k + 1), n) == Cut(Without(s, n), k)
  {
    var c := Cut(s, k + 1);
    var i :| 0 <= i < |c| && c[i] == n;
    WithoutAt(s, i);
    WithoutAt(c, i);
    var a, b := Without(c, n), Cut(Without(s, n), k);
    assert |a| == |b|;
    assert forall j | 0 <= j < |a| :: a[j] == b[j];
  }

  lemma CutStep(s: seq<nat>, k: nat)
    requires s != []
    ensures Cut(s, k + 1) == [s[0]] + Cut(s[1..], k)
  {
  }

  lemma DistinctTail(s: seq<nat>)
    requires Distinct(s) && s != []
    ensures Distinct(s[1..]) && s[0] !in s[1..]
  {
  }

  // Leaving out an element past the cut.
  lemma {:induction false} WithoutCutOutside(s: seq<nat>, n: nat, k: nat)
    requires n !in Cut(s, k)
    ensures Cut(s, k) == Cut(Without(s, n), k)
  {
    if s != [] && k > 0 {
      CutStep(s, k - 1);
      WithoutCutOutside(s[1..], n, k - 1);
    }
  }

  // One access keeps the list equal to the recency order, cut behind k + 1 pages.
  lemma TouchCut(maxPages: nat, k: nat, r: seq<nat>, n: nat)
    requires Distinct(r) && (maxPages == k + 1 || maxPages == k == 0)
    ensures Touch(maxPages, Cut(r, k + 1), n) == Cut([n] + Without(r, n), k + 1)
  {
    var list := Cut(r, k + 1);
    assert Cut([n] + Without(r, n), k + 1) == [n] + Cut(Without(r, n), k);
    if n in list {
      WithoutCutInside(r, n, k);
    } else {
      if |list| >= maxPages && list != [] {
        assert |r| >= k + 1;
        assert list[..|list| - 1] == Cut(r, k);
        assert forall i | 0 <= i < |Cut(r, k)| :: Cut(r, k)[i] == list[i];
      } else {
        assert list == r == Cut(r, k);
      }
      WithoutCutOutside(r, n, k);
    }
  }

  lemma {:induction false} RunIsCut(maxPages: nat, k: nat, trace: seq<nat>)
    requires maxPages == k + 1 || maxPages == k == 0
    ensures Run(maxPages, trace) == Cut(Recency(trace), k + 1)
  {
    if trace != [] {
      var init := trace[..|trace| - 1];
      RunIsCut(maxPages, k, init);
      TouchCut(maxPages, k, Recency(init), trace[|trace| - 1]);
    }
  }

  // The stack property: after any trace the list is the trace's pages, most recent first, cut behind maxPages of them.
  // Even a cache of no pages keeps the page asked for last.
  lemma RunIsCutRecency(maxPages: nat, trace: seq<nat>)
    ensures maxPages > 0 ==> Run(maxPages, trace) == Cut(Recency(trace), maxPages) && |Run(maxPages, trace)| <= maxPages
    ensures maxPages == 0 && trace != [] ==> Run(maxPages, trace) == [trace[|trace| - 1]]
  {
    if maxPages > 0 {
      RunIsCut(maxPages, maxPages - 1, trace);
    } else {
      RunIsCut(maxPages, 0, trace);
    }
  }

  // A larger cache holds all that a smaller one holds, in the same order.
  lemma LargerCacheContains(small: nat, large: nat, trace: seq<nat>)
    requires small <= large
    ensures Run(small, trace) <= Run(large, trace)
  {
    RunIsCut(small, if small == 0 then 0 else small - 1, trace);
    RunIsCut(large, if large == 0 then 0 else large - 1, trace);
  }

  // ------------------------------------------------------------------
  // Residency

  function PagesOf(trace: seq<nat>): set<nat> {
    set x | x in trace
  }

  // Page n stands at position i, behind pages of the set only.
  ghost predicate StandsAt(r: seq<nat>, i: nat, n: nat, pages: set<nat>) {
    i < |r| && r[i] == n && forall j | 0 <= j < i :: r[j] in pages && r[j] != n
  }

  // After an access to n and a trace `later`, only pages of `later` stand before n.
  lemma {:induction false} StandsBefore(trace: seq<nat>, n: nat, later: seq<nat>) returns (i: nat)
    ensures StandsAt(Recency(trace + [n] + later), i, n, PagesOf(later))
  {
    if later == [] {
      assert trace + [n] + later == trace + [n];
      RecencyStep(trace, n);
      i := 0;
    } else {
      var m, init := later[|later| - 1], later[..|later| - 1];
      assert later == init + [m];
      assert PagesOf(later) == PagesOf(init) + {m};
      assert trace + [n] + later == trace + [n] + init + [m];
      var k := StandsBefore(trace, n, init);
      RecencyStep(trace + [n] + init, m);
      i := StaysBehindOne(Recency(trace + [n] + init), k, n, m, PagesOf(init));
    }
  }

  lemma StaysBehindOne(r: seq<nat>, k: nat, n: nat, m: nat, pages: set<nat>) returns (i: nat)
    requires StandsAt(r, k, n, pages)
    ensures StandsAt([m] + Without(r, m), i, n, pages + {m})
  {
    if m == n {
      i := 0;
    } else {
      i := StaysBehind(r, m, k);
    }
  }

  lemma {:induction false} StaysBehind(r: seq<nat>, m: nat, k: nat) returns (i: nat)
    requires k < |r| && r[k] != m
    ensures var r' := [m] + Without(r, m);
            0 < i < |r'| && r'[i] == r[k] && forall j | 1 <= j < i :: exists l :: 0 <= l < k && r[l] == r'[j]
  {
    if k == 0 {
      i := 1;
    } else {
      var i' := StaysBehind(r[1..], m, k - 1);
      i := if r[0] == m then i' else i' + 1;
      var r' := [m] + Without(r, m);
      var q := [m] + Without(r[1..], m);
      forall j | 1 <= j < i ensures exists l :: 0 <= l < k && r[l] == r'[j] {
        if r[0] == m {
          assert r'[j] == q[j];
          var l :| 0 <= l < k - 1 && r[1..][l] == q[j];
          assert r[l + 1] == r'[j];
        } else if j == 1 {
          assert r[0] == r'[1];
        } else {
          assert r'[j] == q[j - 1];
          var l :| 0 <= l < k - 1 && r[1..][l] == q[j - 1];
          assert r[l + 1] == r'[j];
        }
      }
    }
  }

  // A page stays in the list while fewer than maxPages other pages are asked for, or none.
  lemma Resident(maxPages: nat, trace: seq<nat>, n: nat, later: seq<nat>)
    requires |PagesOf(later) - {n}| < maxPages || PagesOf(later) <= {n}
    ensures n in Run(maxPages, trace + [n] + later)
  {
    var k := if maxPages == 0 then 0 else maxPages - 1;
    var r := Recency(trace + [n] + later);
    RunIsCut(maxPages, k, trace + [n] + later);
    var i := StandsBefore(trace, n, later);
    DistinctSize(r[..i], PagesOf(later) - {n});
    if PagesOf(later) <= {n} {
      assert PagesOf(later) - {n} == {};
    }
    assert Cut(r, k + 1)[i] == n;
  }

  // The bound is exact: asking for maxPages other pages, in whatever order and how often, drops the page.
  lemma Dropped(maxPages: nat, trace: seq<nat>, n: nat, later: seq<nat>)
    requires n !in later && later != [] && |PagesOf(later)| >= maxPages
    ensures n !in Run(maxPages, trace + [n] + later)
  {
    assert later[0] in PagesOf(later);
    RunIsCut(maxPages, if maxPages == 0 then 0 else maxPages - 1, trace + [n] + later);
    LatestFirst(trace + [n], later);
  }

  // A page not asked for again is in the list exactly while fewer than maxPages others were asked for, or none.
  lemma ResidentIff(maxPages: nat, trace: seq<nat>, n: nat, later: seq<nat>)
    requires n !in later
    ensures n in Run(maxPages, trace + [n] + later) <==> |PagesOf(later)| < maxPages || later == []
  {
    assert PagesOf(later) - {n} == PagesOf(later);
    if |PagesOf(later)| < maxPages || later == [] {
      assert later == [] ==> PagesOf(later) == {};
      Resident(maxPages, trace, n, later);
    } else {
      Dropped(maxPages, trace, n, later);
    }
  }

  // The first k elements are all in the set.
  ghost predicate StartsWithin(r: seq<nat>, k: nat, pages: set<nat>) {
    k <= |r| && forall i | 0 <= i < k :: r[i] in pages
  }

  // The pages asked for last stand before all others.
  lemma {:induction false} LatestFirst(trace: seq<nat>, later: seq<nat>)
    ensures StartsWithin(Recency(trace + later), |PagesOf(later)|, PagesOf(later))
  {
    if later == [] {
      assert PagesOf(later) == {};
    } else {
      var last := |later| - 1;
      var m, init := later[last], later[..last];
      LatestFirst(trace, init);
      assert later == init + [m];
      assert PagesOf(later) == PagesOf(init) + {m};
      assert trace + init + [m] == trace + later;
      var r := Recency(trace + init);
      if m in PagesOf(init) {
        WithoutOne(r, m, |PagesOf(init)|, PagesOf(init));
        OneInFront(m, Without(r, m), |PagesOf(init)| - 1, PagesOf(later));
      } else {
        WithoutStarts(r, m, |PagesOf(init)|, PagesOf(init));
      }
      RecencyStep(trace + init, m);
    }
  }

  // Leaving out one page leaves one page less at the front.
  lemma {:induction false} WithoutOne(r: seq<nat>, m: nat, k: nat, pages: set<nat>)
    requires Distinct(r) && StartsWithin(r, k, pages) && k > 0
    ensures StartsWithin(Without(r, m), k - 1, pages)
  {
    DistinctTail(r);
    assert r[0] in pages;
    assert forall i {:trigger r[1..][i]} | 0 <= i < k - 1 :: r[1..][i] == r[i + 1];
    if r[0] != m && k > 1 {
      WithoutOne(r[1..], m, k - 1, pages);
      OneInFront(r[0], Without(r[1..], m), k - 2, pages);
    }
  }

  lemma WithoutStarts(r: seq<nat>, m: nat, k: nat, pages: set<nat>)
    requires StartsWithin(r, k, pages) && m !in pages
    ensures StartsWithin([m] + Without(r, m), k + 1, pages + {m})
  {
    var all := pages + {m};
    WithoutKeeps(r, m, k, pages);
    assert StartsWithin(Without(r, m), k, all);
    OneInFront(m, Without(r, m), k, all);
  }

  lemma {:induction false} WithoutKeeps(r: seq<nat>, m: nat, k: nat, pages: set<nat>)
    requires StartsWithin(r, k, pages) && m !in pages
    ensures StartsWithin(Without(r, m), k, pages)
  {
    if k > 0 {
      assert r[0] in pages;
      assert forall i {:trigger r[1..][i]} | 0 <= i < k - 1 :: r[1..][i] == r[i + 1];
      WithoutKeeps(r[1..], m, k - 1, pages);
      OneInFront(r[0], Without(r[1..], m), k - 1, pages);
    }
  }

  lemma OneInFront(x: nat, r: seq<nat>, k: nat, pages: set<nat>)
    requires StartsWithin(r, k, pages) && x in pages
    ensures StartsWithin([x] + r, k + 1, pages)
  {
  }

  lemma RecencyStep(trace: seq<nat>, n: nat)
    ensures Recency(trace + [n]) == [n] + Without(Recency(trace), n)
  {
    assert (trace + [n])[..|trace|] == trace;
  }
}
