/** What a valid table is as a whole: a balanced search tree with exact separators, parents and sibling links. */
module BTreeTheorems {
  import opened BTreeShape
  import opened BTreePages
  import opened BTreeLeaves

  // The number of steps from page q up to the root.
  ghost function Depth(t: Nodes, top: int, q: nat): nat
    requires TreeOk(t, top) && q in t
    decreases t[0].ht - t[q].ht
  {
    assert NodeOk(t, top, q);
    if q == 0 then 0
    else
      ListedByParent(t, top, t[q].parent, q);
      assert NodeOk(t, top, t[q].parent);
      1 + Depth(t, top, t[q].parent)
  }

  // Page a is q or lies above it.
  ghost predicate Above(t: Nodes, top: int, a: nat, q: nat)
    requires TreeOk(t, top) && q in t
    decreases t[0].ht - t[q].ht
  {
    assert NodeOk(t, top, q);
    a == q || (q != 0 &&
      (ListedByParent(t, top, t[q].parent, q);
       assert NodeOk(t, top, t[q].parent);
       Above(t, top, a, t[q].parent)))
  }

  // Every page hangs from the root, and all leaves hang at one depth.
  lemma {:induction false} Balanced(t: Nodes, top: int, q: nat)
    requires TreeOk(t, top) && q in t
    ensures Above(t, top, 0, q)
    ensures Depth(t, top, q) == t[0].ht - t[q].ht
    ensures t[q].ht == 0 ==> Depth(t, top, q) == t[0].ht
    decreases t[0].ht - t[q].ht
  {
    assert NodeOk(t, top, q);
    if q != 0 {
      ListedByParent(t, top, t[q].parent, q);
      assert NodeOk(t, top, t[q].parent);
      Balanced(t, top, t[q].parent);
    }
  }

  // The parent pointer of a page other than the root names the one page that lists it, and it is listed there once;
  // only the root carries the root flag.
  lemma ParentsExact(c: Caps, s: seq<Page>, g: Model, q: nat, p: nat)
    requires TableOk(c, s, g) && q < |s| && p < |s|
    ensures s[q].isRoot <==> q == 0
    ensures q != 0 ==> s[q].parent < |s| && s[s[q].parent].nodeType == INTERNAL
    ensures s[p].nodeType == INTERNAL ==>
              && s[p].count <= |s[p].slots|
              && (q in Children(s[p]) <==> q != 0 && s[q].parent == p)
              && forall i, j | 0 <= i < j < |Children(s[p])| :: Children(s[p])[i] != Children(s[p])[j]
  {
    assert PageOk(c, s, g, q) && PageOk(c, s, g, p) && NodeOk(g.t, g.top, q);
    if q != 0 {
      var r := g.t[q].parent;
      ListedByParent(g.t, g.top, r, q);
      assert PageOk(c, s, g, r);
    }
    if s[p].nodeType == INTERNAL {
      KidsDistinct(g.t, g.top, p);
      if q in Children(s[p]) {
        ListedByParent(g.t, g.top, p, q);
      }
    }
  }

  // Occupancy: an internal page has 1 to innerMax keys, a leaf other than the root is at least half full.
  lemma Occupancy(c: Caps, s: seq<Page>, g: Model, q: nat)
    requires TableOk(c, s, g) && q < |s|
    ensures s[q].nodeType == INTERNAL ==> 1 <= s[q].count <= c.innerMax
    ensures s[q].nodeType == LEAF ==> s[q].count <= c.leafMax
    ensures s[q].nodeType == LEAF && q != 0 ==> c.leafMax / 2 <= s[q].count
    ensures s[q].nodeType == LEAF && q != 0 && c == TOY_SQL_CAPS ==> 8 <= s[q].count <= 15
  {
    assert PageOk(c, s, g, q);
    if s[q].nodeType == INTERNAL {
      assert |Children(s[q])| == s[q].count + 1;
    }
  }

  lemma {:induction false} RangeAbove(t: Nodes, top: int, a: nat, q: nat)
    requires TreeOk(t, top) && q in t && Above(t, top, a, q)
    ensures a in t && t[a].lo <= t[q].lo && t[q].hi <= t[a].hi
    decreases t[0].ht - t[q].ht
  {
    if a != q {
      assert NodeOk(t, top, q);
      var r := t[q].parent;
      ListedByParent(t, top, r, q);
      assert NodeOk(t, top, r);
      KidRange(t, top, r, IndexIn(t[r].kids, q));
      RangeAbove(t, top, a, r);
    }
  }

  // The last leaf below page a.
  lemma {:induction false} LastLeaf(t: Nodes, top: int, a: nat) returns (leaf: nat)
    requires TreeOk(t, top) && a in t
    ensures leaf in t && t[leaf].ht == 0 && t[leaf].hi == t[a].hi && Above(t, top, a, leaf)
    decreases t[a].ht
  {
    assert NodeOk(t, top, a);
    if t[a].ht == 0 {
      leaf := a;
    } else {
      var k := t[a].kids[|t[a].kids| - 1];
      assert KidOk(t, a, |t[a].kids| - 1);
      leaf := LastLeaf(t, top, k);
      AboveTransitive(t, top, a, k, leaf);
    }
  }

  lemma {:induction false} AboveTransitive(t: Nodes, top: int, a: nat, b: nat, q: nat)
    requires TreeOk(t, top) && q in t && b in t && Above(t, top, b, q) && Above(t, top, a, b)
    ensures Above(t, top, a, q)
    decreases t[0].ht - t[q].ht
  {
    if b != q {
      assert NodeOk(t, top, q);
      ListedByParent(t, top, t[q].parent, q);
      assert NodeOk(t, top, t[q].parent);
      AboveTransitive(t, top, a, b, t[q].parent);
    }
  }

  // Separator j of an internal page is the last key of some leaf below its child j.
  lemma SeparatorReached(c: Caps, s: seq<Page>, g: Model, p: nat, j: nat) returns (leaf: nat)
    requires TableOk(c, s, g) && p < |s| && s[p].nodeType == INTERNAL && j < s[p].count
    ensures s[p].count <= |s[p].slots| && leaf in g.t && leaf < |s|
    ensures Above(g.t, g.top, s[p].slots[j].child, leaf)
    ensures s[leaf].nodeType == LEAF && 0 < s[leaf].count <= |s[leaf].cells|
            && s[leaf].cells[s[leaf].count - 1].key == s[p].slots[j].key
  {
    assert PageOk(c, s, g, p) && NodeOk(g.t, g.top, p);
    assert s[p].slots[j].child == g.t[p].kids[j];
    KidsAscend(g.t, g.top, p, j, j + 1);
    leaf := LastLeaf(g.t, g.top, s[p].slots[j].child);
    assert PageOk(c, s, g, leaf);
  }

  // Where leaves other than the root hold that many keys, no largest key is smaller.
  lemma MaximumAtLeast(c: Caps, s: seq<Page>, g: Model, q: nat)
    requires TableOk(c, s, g) && q in g.t && q != 0
    ensures c.RightSplit() - 1 <= MaxBelow(g.t, g.top, q)
  {
    var leaf := LastLeaf(g.t, g.top, q);
    assert PageOk(c, s, g, leaf) && NodeOk(g.t, g.top, q);
    if leaf == 0 {
      NothingAbove(g.t, g.top, q);
    }
    AscendingKeys(s[leaf], s[leaf].count - 1);
  }

  lemma NothingAbove(t: Nodes, top: int, q: nat)
    requires TreeOk(t, top) && 0 in t && Above(t, top, q, 0)
    ensures q == 0
  {
  }

  lemma {:induction false} AscendingKeys(page: Page, i: nat)
    requires i < page.count <= |page.cells| && CellsAscend(page)
    ensures i <= page.cells[i].key
  {
    if i > 0 {
      AscendingKeys(page, i - 1);
    }
  }

  // It divides the rows below the node: those below child l are at most the separator if l <= j, and above it
  // otherwise.
  lemma SeparatorDivides(c: Caps, s: seq<Page>, g: Model, p: nat, j: nat, l: nat, q: nat, i: nat)
    requires TableOk(c, s, g) && p < |s| && s[p].nodeType == INTERNAL && j < s[p].count
    requires s[p].count <= |s[p].slots| && l < |Children(s[p])|
    requires q < |s| && q in g.t && s[q].nodeType == LEAF && i < s[q].count <= |s[q].cells|
    requires Above(g.t, g.top, Children(s[p])[l], q)
    ensures s[q].cells[i].key <= s[p].slots[j].key <==> l <= j
  {
    assert PageOk(c, s, g, p) && PageOk(c, s, g, q) && NodeOk(g.t, g.top, p);
    assert s[p].slots[j].key == g.t[g.t[p].kids[j]].hi;
    RangeAbove(g.t, g.top, g.t[p].kids[l], q);
    if l < j {
      KidsAscend(g.t, g.top, p, l, j);
      assert NodeOk(g.t, g.top, g.t[p].kids[j]);
    } else if j < l {
      KidsAscend(g.t, g.top, p, j, l);
    }
  }

  // ------------------------------------------------------------------
  // The sibling chain

  // The leaf after leaf q starts where q ends; only the last leaf has none.
  lemma NextInChain(c: Caps, s: seq<Page>, g: Model, q: nat)
    requires TableOk(c, s, g) && q in g.t && g.t[q].ht == 0
    ensures q < |s| && g.t[q].lo < g.t[q].hi <= INF
    ensures s[q].link == 0 <==> g.t[q].hi == INF
    ensures s[q].link != 0 ==>
              s[q].link in g.t && g.t[s[q].link].ht == 0 && g.t[s[q].link].lo == g.t[q].hi < g.t[s[q].link].hi
  {
    assert PageOk(c, s, g, q) && NodeOk(g.t, g.top, q);
    if g.t[q].hi != INF {
      assert NodeOk(g.t, g.top, s[q].link);
    }
  }

  // The leaves met by following the sibling links from leaf q.
  ghost function Chain(c: Caps, s: seq<Page>, g: Model, q: nat): (r: seq<nat>)
    requires TableOk(c, s, g) && q in g.t && g.t[q].ht == 0
    ensures r != [] && r[0] == q
    decreases INF - g.t[q].hi
  {
    NextInChain(c, s, g, q);
    if s[q].link == 0 then [q]
    else
      NextInChain(c, s, g, s[q].link);
      [q] + Chain(c, s, g, s[q].link)
  }

  // They are the leaves from q on, all of them, from left to right.
  lemma {:induction false} ChainFrom(c: Caps, s: seq<Page>, g: Model, q: nat)
    requires TableOk(c, s, g) && q in g.t && g.t[q].ht == 0
    ensures forall x | x in g.t && g.t[x].ht == 0 && g.t[q].lo <= g.t[x].lo :: x in Chain(c, s, g, q)
    ensures forall i | 0 <= i < |Chain(c, s, g, q)| ::
              var x := Chain(c, s, g, q)[i]; x in g.t && g.t[x].ht == 0 && g.t[q].lo <= g.t[x].lo
    ensures forall i | 0 < i < |Chain(c, s, g, q)| ::
              g.t[Chain(c, s, g, q)[i - 1]].hi == g.t[Chain(c, s, g, q)[i]].lo
    decreases INF - g.t[q].hi
  {
    NextInChain(c, s, g, q);
    var next := s[q].link;
    if next != 0 {
      NextInChain(c, s, g, next);
      ChainFrom(c, s, g, next);
    }
    forall x | x in g.t && g.t[x].ht == 0 && g.t[q].lo <= g.t[x].lo && x != q
      ensures next != 0 && g.t[next].lo <= g.t[x].lo
    {
      LeavesApart(g, q, x);
    }
  }

  lemma LeavesApart(g: Model, q: nat, x: nat)
    requires TreeOk(g.t, g.top) && q in g.t && x in g.t && g.t[q].ht == 0 && g.t[x].ht == 0
    requires q != x && g.t[q].lo <= g.t[x].lo
    ensures g.t[q].hi <= g.t[x].lo < INF
  {
    assert NodeOk(g.t, g.top, x);
    if g.t[x].lo < g.t[q].hi {
      UniqueCover(g.t, g.top, q, x, g.t[x].lo + 1);
    }
  }

  // From the leaf where a scan starts, the sibling links lead through all leaves, and through nothing else.
  lemma ChainIsLeaves(c: Caps, s: seq<Page>, g: Model, first: nat)
    requires TableOk(c, s, g) && Covers(g.t, first, 0) && g.t[first].ht == 0
    ensures var chain := Chain(c, s, g, first);
            && (forall x: nat :: x in chain <==> x < |s| && s[x].nodeType == LEAF)
            && (forall i | 0 <= i < |chain| :: chain[i] in g.t)
            && (forall i | 0 < i < |chain| :: g.t[chain[i - 1]].hi == g.t[chain[i]].lo)
  {
    var chain := Chain(c, s, g, first);
    ChainFrom(c, s, g, first);
    forall x: nat ensures x in chain <==> x < |s| && s[x].nodeType == LEAF {
      if x in g.t {
        assert PageOk(c, s, g, x) && NodeOk(g.t, g.top, x) && NodeOk(g.t, g.top, first);
      }
      assert x < |s| <==> x in g.t;
    }
  }

  // ------------------------------------------------------------------
  // Scans

  ghost predicate Ascending(a: seq<Cell>) {
    forall i, j | 0 <= i < j < |a| :: a[i].key < a[j].key
  }

  ghost predicate Within(a: seq<Cell>, b: seq<Cell>) {
    forall i {:trigger a[i]} | 0 <= i < |a| :: a[i] in b
  }

  // What a scan yields depends on the rows alone, not on the shape the insertions gave the tree.
  lemma ListingUnique(a: seq<Cell>, b: seq<Cell>, rows: map<Key, Row>, bound: int)
    requires Listed(a, rows, bound) && Listed(b, rows, bound)
    ensures a == b
  {
    ListedWithin(a, b, rows, bound);
    ListedWithin(b, a, rows, bound);
    AscendingUnique(a, b);
  }

  lemma ListedWithin(a: seq<Cell>, b: seq<Cell>, rows: map<Key, Row>, bound: int)
    requires Listed(a, rows, bound) && Listed(b, rows, bound)
    ensures Ascending(a) && Within(a, b)
  {
    forall i | 0 <= i < |a| ensures a[i] in b {
      assert a[i].key in rows;
      var j :| 0 <= j < |b| && b[j].key == a[i].key;
      assert b[j] == a[i];
    }
  }

  lemma {:induction false} AscendingUnique(a: seq<Cell>, b: seq<Cell>)
    requires Ascending(a) && Ascending(b) && Within(a, b) && Within(b, a)
    ensures a == b
    decreases |a|
  {
    if a == [] {
      if b != [] {
        SameLast(b, a);
      }
    } else {
      SameLast(a, b);
      WithoutLast(a, b);
      WithoutLast(b, a);
      AscendingUnique(a[..|a| - 1], b[..|b| - 1]);
      Rejoined(a, b);
    }
  }

  lemma SameLast(a: seq<Cell>, b: seq<Cell>)
    requires Ascending(a) && Ascending(b) && Within(a, b) && Within(b, a) && a != []
    ensures b != [] && a[|a| - 1] == b[|b| - 1]
  {
    var last := a[|a| - 1];
    assert last in b;
    var j :| 0 <= j < |b| && b[j] == last;
    var other := b[|b| - 1];
    assert other in a;
    var i :| 0 <= i < |a| && a[i] == other;
  }

  lemma WithoutLast(a: seq<Cell>, b: seq<Cell>)
    requires Ascending(a) && Within(a, b) && a != [] && b != [] && a[|a| - 1] == b[|b| - 1]
    ensures Ascending(a[..|a| - 1]) && Within(a[..|a| - 1], b[..|b| - 1])
  {
    var a', b' := a[..|a| - 1], b[..|b| - 1];
    forall i {:trigger a'[i]} | 0 <= i < |a'| ensures a'[i] in b' {
      assert a'[i] == a[i] && a[i].key < a[|a| - 1].key;
      var j :| 0 <= j < |b| && b[j] == a[i];
      assert b'[j] == a[i];
    }
  }

  lemma Rejoined(a: seq<Cell>, b: seq<Cell>)
    requires a != [] && b != [] && a[..|a| - 1] == b[..|b| - 1] && a[|a| - 1] == b[|b| - 1]
    ensures a == b
  {
    assert a == a[..|a| - 1] + [a[|a| - 1]];
    assert b == b[..|b| - 1] + [b[|b| - 1]];
  }
}
