/** How many pages a table of a given number of rows can use. */
module BTreeCapacity {
  import opened Sequences
  import opened BTreeShape
  import opened BTreePages
  import opened BTreeRoom

  // ------------------------------------------------------------------
  // Counting

  ghost function Leaves(t: Nodes): set<nat> {
    set q | q in t && t[q].ht == 0
  }

  ghost function Inners(t: Nodes): set<nat> {
    set q | q in t && t[q].ht > 0
  }

  ghost function FullFrom(t: Nodes, innerMax: nat, h: nat): set<nat> {
    set q | q in t && t[q].ht >= h && t[q].ht > 0 && |t[q].kids| > innerMax
  }

  // The nodes whose parent lies in a set.
  ghost function KidsOf(t: Nodes, ps: set<nat>): set<nat> {
    set k | k in t && k != 0 && t[k].parent in ps
  }

  // The rows whose keys lie in the ranges of a set of leaves.
  ghost function KeysIn(t: Nodes, rows: map<Key, Row>, ls: set<nat>): set<Key> {
    set k, q | k in rows && q in ls && Covers(t, q, k) :: k
  }

  lemma JoinKids(g: Model, rest: set<nat>, p: nat)
    requires TreeOk(g.t, g.top) && p in g.t && p !in rest
    ensures |KidsOf(g.t, rest + {p})| == |KidsOf(g.t, rest)| + |g.t[p].kids|
  {
    OneNodesKids(g, p);
    assert KidsOf(g.t, rest + {p}) == KidsOf(g.t, rest) + KidsOf(g.t, {p});
    assert KidsOf(g.t, rest) !! KidsOf(g.t, {p});
  }

  // The children of a set of nodes number at least twice the nodes, and two more for each full one.
  lemma {:induction false} ManyKids(c: Caps, g: Model, ps: set<nat>)
    requires TreeOk(g.t, g.top) && FanOk(g.t, c.innerMax, -1) && ps <= Inners(g.t)
    ensures |KidsOf(g.t, ps)| >= 2 * |ps| + 2 * |ps * FullFrom(g.t, c.innerMax, 0)|
    decreases ps
  {
    var full := FullFrom(g.t, c.innerMax, 0);
    if ps == {} {
      assert ps * full == {};
    } else {
      var p :| p in ps;
      var rest := ps - {p};
      ManyKids(c, g, rest);
      JoinKids(g, rest, p);
      assert rest + {p} == ps;
      assert ps * full == rest * full + (if p in full then {p} else {});
    }
  }

  lemma OneNodesKids(g: Model, p: nat)
    requires TreeOk(g.t, g.top) && p in g.t
    ensures |KidsOf(g.t, {p})| == |g.t[p].kids|
  {
    KidsDistinct(g.t, g.top, p);
    forall k ensures k in g.t[p].kids <==> k in KidsOf(g.t, {p}) {
      if k in g.t[p].kids {
        ListedByParent(g.t, g.top, p, k);
      }
      if k in KidsOf(g.t, {p}) {
        assert NodeOk(g.t, g.top, k);
      }
    }
    DistinctSize(g.t[p].kids, KidsOf(g.t, {p}));
  }

  // Leaves outnumber internal nodes, by two more for each full internal node.
  lemma LeavesOutnumber(c: Caps, g: Model)
    requires TreeOk(g.t, g.top) && FanOk(g.t, c.innerMax, -1)
    ensures |g.t| == |Leaves(g.t)| + |Inners(g.t)|
    ensures |Leaves(g.t)| >= |Inners(g.t)| + 2 * |FullFrom(g.t, c.innerMax, 0)| + 1
  {
    var t := g.t;
    ManyKids(c, g, Inners(t));
    assert t.Keys == Leaves(t) + Inners(t);
    assert Inners(t) * FullFrom(t, c.innerMax, 0) == FullFrom(t, c.innerMax, 0);
    forall k ensures k in KidsOf(t, Inners(t)) <==> k in t.Keys - {0} {
      if k in t && k != 0 {
        assert NodeOk(t, g.top, k);
        ListedByParent(t, g.top, t[k].parent, k);
      }
    }
    assert KidsOf(t, Inners(t)) == t.Keys - {0};
  }

  // A cascade splits each full node at most once, and grows the root by one page.
  lemma {:induction false} GainBound(c: Caps, g: Model, p: nat)
    requires TreeOk(g.t, g.top) && p in g.t && g.t[p].ht > 0
    ensures PagesToGain(g, c.innerMax, p) == 0
            || PagesToGain(g, c.innerMax, p) <= |FullFrom(g.t, c.innerMax, g.t[p].ht)| + 1
    ensures PagesToGain(g, c.innerMax, p) > 0 ==> |FullFrom(g.t, c.innerMax, 0)| > 0
    decreases g.t[0].ht - g.t[p].ht
  {
    var t, h := g.t, g.t[p].ht;
    assert NodeOk(t, g.top, p);
    if |t[p].kids| > c.innerMax {
      assert p in FullFrom(t, c.innerMax, h) && p in FullFrom(t, c.innerMax, 0);
      if p != 0 {
        ListedByParent(t, g.top, t[p].parent, p);
        assert NodeOk(t, g.top, t[p].parent);
        GainBound(c, g, t[p].parent);
        assert FullFrom(t, c.innerMax, h + 1) + {p} <= FullFrom(t, c.innerMax, h);
        SubsetSize(FullFrom(t, c.innerMax, h + 1) + {p}, FullFrom(t, c.innerMax, h));
        assert p !in FullFrom(t, c.innerMax, h + 1);
      }
    }
  }

  // ------------------------------------------------------------------
  // Rows

  lemma LeafKeys(c: Caps, s: seq<Page>, g: Model, q: nat)
    requires TableOk(c, s, g) && q in g.t && g.t[q].ht == 0
    ensures q < |s| && s[q].count <= |KeysIn(g.t, g.rows, {q})|
  {
    assert PageOk(c, s, g, q);
    var keys := seq(s[q].count, i requires 0 <= i < s[q].count && s[q].count <= |s[q].cells| => s[q].cells[i].key);
    forall k | k in keys ensures k in KeysIn(g.t, g.rows, {q}) {
      var i :| 0 <= i < |keys| && keys[i] == k;
      assert s[q].cells[i].key in g.rows && Covers(g.t, q, k);
    }
    DistinctSize(keys, KeysIn(g.t, g.rows, {q}));
  }

  // Every leaf but a root leaf holds RightSplit rows or more.
  lemma {:induction false} ManyRows(c: Caps, s: seq<Page>, g: Model, ls: set<nat>)
    requires TableOk(c, s, g) && ls <= Leaves(g.t) && 0 !in ls
    ensures |KeysIn(g.t, g.rows, ls)| >= c.RightSplit() * |ls|
    decreases ls
  {
    if ls == {} {
      return;
    }
    var p :| p in ls;
    var rest := ls - {p};
    assert rest + {p} == ls;
    ManyRows(c, s, g, rest);
    MoreRows(c, s, g, rest, p);
    OneMore(c.RightSplit(), |rest|);
  }

  lemma MoreRows(c: Caps, s: seq<Page>, g: Model, rest: set<nat>, p: nat)
    requires TableOk(c, s, g) && rest <= Leaves(g.t) && p in Leaves(g.t) && p !in rest && p != 0
    ensures |KeysIn(g.t, g.rows, rest + {p})| >= |KeysIn(g.t, g.rows, rest)| + c.RightSplit()
  {
    LeafKeys(c, s, g, p);
    assert PageOk(c, s, g, p);
    JoinKeys(g, rest, p);
  }

  lemma OneMore(k: nat, n: nat)
    ensures k * (n + 1) == k * n + k
  {
  }

  lemma JoinKeys(g: Model, rest: set<nat>, p: nat)
    requires TreeOk(g.t, g.top) && rest <= Leaves(g.t) && p in Leaves(g.t) && p !in rest
    ensures |KeysIn(g.t, g.rows, rest + {p})| == |KeysIn(g.t, g.rows, rest)| + |KeysIn(g.t, g.rows, {p})|
  {
    var a, b := KeysIn(g.t, g.rows, rest), KeysIn(g.t, g.rows, {p});
    assert KeysIn(g.t, g.rows, rest + {p}) == a + b;
    forall k | k in a && k in b ensures false {
      var q :| q in rest && Covers(g.t, q, k);
      UniqueCover(g.t, g.top, p, q, k);
    }
    assert a !! b;
  }

  lemma FewLeaves(c: Caps, s: seq<Page>, g: Model, p: nat)
    requires TableOk(c, s, g) && p in g.t && g.t[p].ht == 0 && p != 0
    ensures p < |s| && c.RightSplit() * (|Leaves(g.t)| - 1) + s[p].count <= |g.rows|
  {
    var rest := Leaves(g.t) - {p};
    assert NodeOk(g.t, g.top, p);
    assert 0 !in Leaves(g.t);
    ManyRows(c, s, g, rest);
    LeafKeys(c, s, g, p);
    JoinKeys(g, rest, p);
    SubsetSize(KeysIn(g.t, g.rows, rest + {p}), g.rows.Keys);
    assert |rest| == |Leaves(g.t)| - 1;
    assert |g.rows.Keys| == |g.rows|;
  }

  // ------------------------------------------------------------------
  // Pages

  // The page numbers of a table are exactly its nodes.
  lemma PagesAreNodes(c: Caps, s: seq<Page>, g: Model)
    requires TableOk(c, s, g)
    ensures |g.t| == |s|
  {
    PageNumbersSize(|s|);
    assert |g.t.Keys| == |g.t|;
  }

  lemma {:induction false} PageNumbersSize(n: nat)
    ensures |PageNumbers(n)| == n
  {
    if n > 0 {
      PageNumbersSize(n - 1);
    }
  }

  // The table after an insertion at leaf p has a number of pages bounded by twice the number of leaves that the rows
  // can fill with RightSplit rows each.
  lemma PagesAfterInsert(c: Caps, s: seq<Page>, g: Model, p: nat) returns (leaves: nat)
    requires TableOk(c, s, g) && p in g.t && g.t[p].ht == 0
    ensures p < |s|
    ensures var after := |s| + PagesToInsert(c, s, g, p);
            after == 1 || (after < 2 * leaves && c.RightSplit() * leaves <= |g.rows| + 1)
  {
    var t := g.t;
    assert PageOk(c, s, g, p) && NodeOk(t, g.top, p);
    PagesAreNodes(c, s, g);
    LeavesOutnumber(c, g);
    if p == 0 {
      RootLeafAlone(c, s, g);
      leaves := 2;
      LeafKeys(c, s, g, 0);
      SubsetSize(KeysIn(t, g.rows, {0}), g.rows.Keys);
      assert |g.rows.Keys| == |g.rows|;
    } else {
      FewLeaves(c, s, g, p);
      ListedByParent(t, g.top, t[p].parent, p);
      SubsetSize(FullFrom(t, c.innerMax, 1), FullFrom(t, c.innerMax, 0));
      GainBound(c, g, t[p].parent);
      assert t[p].parent in t;
      OneMore(c.RightSplit(), |Leaves(t)| - 1);
      if s[p].count < c.leafMax {
        leaves := |Leaves(t)|;
      } else {
        leaves := |Leaves(t)| + 1;
        OneMore(c.RightSplit(), |Leaves(t)|);
      }
    }
  }

  lemma RootLeafAlone(c: Caps, s: seq<Page>, g: Model)
    requires TableOk(c, s, g) && g.t[0].ht == 0
    ensures |s| == 1
  {
    forall q | q in g.t ensures q == 0 {
      assert NodeOk(g.t, g.top, q);
    }
    assert g.t.Keys == {0};
    PagesAreNodes(c, s, g);
    assert |g.t.Keys| == |g.t|;
  }

  // With the capacities of the source the file's 1028 pages suffice for 4119 rows.
  lemma FileSuffices(s: seq<Page>, g: Model, p: nat)
    requires TableOk(TOY_SQL_CAPS, s, g) && p in g.t && g.t[p].ht == 0 && |g.rows| < 4119
    ensures p < |s| && |s| + PagesToInsert(TOY_SQL_CAPS, s, g, p) <= 1027 < FILE_PAGES_NUM
  {
    var leaves := PagesAfterInsert(TOY_SQL_CAPS, s, g, p);
    assert TOY_SQL_CAPS.RightSplit() == 8;
  }
}
