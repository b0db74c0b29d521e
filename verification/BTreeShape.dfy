/**
 The abstract B+tree: what the linked pages of the table mean.

 Every page number denotes a node with a height, a key range (lo, hi], a parent
 and an ordered list of children.  A range ending at INF belongs to the right
 edge of the tree.  `top` is the largest key in the table (0 when empty).
 All conditions are local to a node and its children; what they imply for the
 whole tree is proved by the lemmas at the end.
 */
module BTreeShape {
  import opened Sequences

  const INF: int := 0x1_0000_0000

  datatype Node = Node(ht: nat, lo: int, hi: int, kids: seq<nat>, parent: nat)

  type Nodes = map<nat, Node>

  // The largest key stored below page q.
  ghost function MaxBelow(t: Nodes, top: int, q: nat): int
    requires q in t
  {
    if t[q].hi < INF then t[q].hi else top
  }

  ghost predicate KidOk(t: Nodes, q: nat, j: nat)
    requires q in t && j < |t[q].kids|
  {
    var k := t[q].kids[j];
    && k in t && k != 0
    && t[k].parent == q
    && t[k].ht + 1 == t[q].ht
    && t[k].lo == (if j == 0 then t[q].lo
                   else if t[q].kids[j - 1] in t then t[t[q].kids[j - 1]].hi else INF)
    && (j == |t[q].kids| - 1 ==> t[k].hi == t[q].hi)
  }

  ghost predicate NodeOk(t: Nodes, top: int, q: nat)
    requires q in t && 0 in t
  {
    && -1 <= t[q].lo < t[q].hi <= INF
    && (t[q].hi == INF ==> t[q].lo < top)
    && (t[q].ht == 0 <==> t[q].kids == [])
    && t[q].ht <= t[0].ht
    && (t[q].ht == t[0].ht ==> q == 0)
    && (forall j {:trigger KidOk(t, q, j)} | 0 <= j < |t[q].kids| :: KidOk(t, q, j))
    && (q != 0 ==> t[q].parent in t && q in t[t[q].parent].kids)
  }

  ghost predicate TreeOk(t: Nodes, top: int)
  {
    && 0 in t
    && t[0].lo == -1 && t[0].hi == INF
    && 0 <= top < INF
    && forall q {:trigger NodeOk(t, top, q)} | q in t :: NodeOk(t, top, q)
  }

  // Internal nodes hold 2 .. innerMax + 1 children; node `over` may hold one more.
  ghost predicate FanOk(t: Nodes, innerMax: nat, over: int)
  {
    forall q | q in t && t[q].ht > 0 ::
      2 <= |t[q].kids| <= innerMax + (if q == over then 2 else 1)
  }

  ghost predicate Covers(t: Nodes, q: nat, k: int)
  {
    q in t && t[q].lo < k <= t[q].hi
  }

  // ------------------------------------------------------------------
  // Consequences for the whole tree

  lemma {:induction false} KidsAscend(t: Nodes, top: int, q: nat, i: nat, j: nat)
    requires TreeOk(t, top) && q in t && i < j < |t[q].kids|
    ensures t[q].kids[i] in t && t[q].kids[j] in t
    ensures t[t[q].kids[i]].hi <= t[t[q].kids[j]].lo
    ensures t[t[q].kids[i]].hi < INF
    decreases j - i
  {
    assert NodeOk(t, top, q);
    assert KidOk(t, q, i) && KidOk(t, q, j) && KidOk(t, q, j - 1);
    assert NodeOk(t, top, t[q].kids[j]);
    if i < j - 1 {
      KidsAscend(t, top, q, i, j - 1);
      assert NodeOk(t, top, t[q].kids[j - 1]);
    }
  }

  // A node is listed by its parent only.
  lemma ListedByParent(t: Nodes, top: int, q: nat, k: nat)
    requires TreeOk(t, top) && q in t && k in t[q].kids
    ensures k in t && k != 0 && t[k].parent == q && t[k].ht + 1 == t[q].ht
  {
    assert NodeOk(t, top, q);
    assert KidOk(t, q, IndexIn(t[q].kids, k));
  }

  lemma KidsDistinct(t: Nodes, top: int, q: nat)
    requires TreeOk(t, top) && q in t
    ensures Distinct(t[q].kids)
  {
    forall i, j | 0 <= i < j < |t[q].kids| ensures t[q].kids[i] != t[q].kids[j] {
      KidsAscend(t, top, q, i, j);
      assert NodeOk(t, top, t[q].kids[i]);
    }
  }

  // A child's range lies inside its parent's range.
  lemma KidRange(t: Nodes, top: int, q: nat, j: nat)
    requires TreeOk(t, top) && q in t && j < |t[q].kids|
    ensures t[q].kids[j] in t
    ensures t[q].lo <= t[t[q].kids[j]].lo < t[t[q].kids[j]].hi <= t[q].hi
  {
    var n := |t[q].kids|;
    assert NodeOk(t, top, q);
    assert KidOk(t, q, j) && KidOk(t, q, 0) && KidOk(t, q, n - 1);
    assert NodeOk(t, top, t[q].kids[j]) && NodeOk(t, top, t[q].kids[0]) && NodeOk(t, top, t[q].kids[n - 1]);
    if 0 < j { KidsAscend(t, top, q, 0, j); }
    if j < n - 1 { KidsAscend(t, top, q, j, n - 1); }
  }

  // At one height, at most one node covers a key: the ranges of a level are disjoint.
  lemma {:induction false} UniqueCover(t: Nodes, top: int, a: nat, b: nat, k: int)
    requires TreeOk(t, top) && Covers(t, a, k) && Covers(t, b, k) && t[a].ht == t[b].ht
    ensures a == b
    decreases t[0].ht - t[a].ht
  {
    assert NodeOk(t, top, a) && NodeOk(t, top, b);
    if a == 0 || b == 0 {
      return;
    }
    var pa, pb := t[a].parent, t[b].parent;
    var i :| 0 <= i < |t[pa].kids| && t[pa].kids[i] == a;
    var j :| 0 <= j < |t[pb].kids| && t[pb].kids[j] == b;
    KidRange(t, top, pa, i);
    KidRange(t, top, pb, j);
    assert NodeOk(t, top, pa) && NodeOk(t, top, pb);
    assert KidOk(t, pa, i) && KidOk(t, pb, j);
    UniqueCover(t, top, pa, pb, k);
    if i < j {
      KidsAscend(t, top, pa, i, j);
    } else if j < i {
      KidsAscend(t, top, pa, j, i);
    }
  }

  // Every key is covered by some leaf below any node that covers it.
  lemma {:induction false} LeafCovering(t: Nodes, top: int, q: nat, k: int) returns (leaf: nat)
    requires TreeOk(t, top) && Covers(t, q, k)
    ensures Covers(t, leaf, k) && t[leaf].ht == 0
    decreases t[q].ht
  {
    assert NodeOk(t, top, q);
    if t[q].ht == 0 {
      leaf := q;
    } else {
      assert KidOk(t, q, |t[q].kids| - 1);
      var j := KidCovering(t, top, q, k, |t[q].kids| - 1);
      assert KidOk(t, q, j);
      leaf := LeafCovering(t, top, t[q].kids[j], k);
    }
  }

  lemma {:induction false} KidCovering(t: Nodes, top: int, q: nat, k: int, n: nat) returns (j: nat)
    requires TreeOk(t, top) && Covers(t, q, k) && n < |t[q].kids|
    requires t[q].kids[n] in t && k <= t[t[q].kids[n]].hi
    ensures j <= n && Covers(t, t[q].kids[j], k)
  {
    assert NodeOk(t, top, q);
    assert KidOk(t, q, n);
    if n == 0 || t[t[q].kids[n]].lo < k {
      j := n;
    } else {
      assert KidOk(t, q, n - 1);
      j := KidCovering(t, top, q, k, n - 1);
    }
  }

  // MaxBelow lies in the node's range, and equals that of the last child.
  lemma MaxBelowInRange(t: Nodes, top: int, q: nat)
    requires TreeOk(t, top) && q in t
    ensures t[q].lo < MaxBelow(t, top, q) <= t[q].hi && 0 <= MaxBelow(t, top, q) < INF
    ensures t[q].ht > 0 ==>
              |t[q].kids| > 0 &&
              var k := t[q].kids[|t[q].kids| - 1];
              k in t && t[k].ht + 1 == t[q].ht && MaxBelow(t, top, k) == MaxBelow(t, top, q)
  {
    assert NodeOk(t, top, q);
    if t[q].ht > 0 {
      assert KidOk(t, q, |t[q].kids| - 1);
    }
  }

  // The children of a node have strictly ascending maxima.
  lemma MaximaAscend(t: Nodes, top: int, q: nat, i: nat, j: nat)
    requires TreeOk(t, top) && q in t && i < j < |t[q].kids|
    ensures t[q].kids[i] in t && t[q].kids[j] in t
    ensures MaxBelow(t, top, t[q].kids[i]) < MaxBelow(t, top, t[q].kids[j])
  {
    KidsAscend(t, top, q, i, j);
    MaxBelowInRange(t, top, t[q].kids[i]);
    MaxBelowInRange(t, top, t[q].kids[j]);
  }

  // The position of a node among the children of its parent.
  ghost function IndexIn(s: seq<nat>, x: nat): (j: nat)
    requires x in s
    ensures j < |s| && s[j] == x
  {
    var j :| 0 <= j < |s| && s[j] == x; j
  }

  // ------------------------------------------------------------------
  // Growing the root

  ghost function GrownNode(t: Nodes, l: nat, q: nat): Node
    requires 0 in t && (q in t || q == l)
  {
    if q == 0 then Node(t[0].ht + 1, -1, INF, [l], t[0].parent)
    else if q == l then t[0].(parent := 0)
    else if q in t[0].kids then t[q].(parent := l)
    else t[q]
  }

  // The root's content moves to page l; the root keeps l as its only child.
  ghost function Grow(t: Nodes, l: nat): (t': Nodes)
    requires 0 in t
    ensures t'.Keys == t.Keys + {l}
  {
    map q | q in t.Keys + {l} :: GrownNode(t, l, q)
  }

  lemma GrowOk(t: Nodes, top: int, l: nat)
    requires TreeOk(t, top) && l !in t
    ensures TreeOk(Grow(t, l), top)
  {
    var t' := Grow(t, l);
    assert NodeOk(t, top, 0);
    forall q | q in t' ensures NodeOk(t', top, q) {
      if q == 0 {
        assert KidOk(t', 0, 0);
      } else if q == l {
        forall j | 0 <= j < |t'[q].kids| ensures KidOk(t', q, j) {
          assert KidOk(t, 0, j);
          if j > 0 { assert KidOk(t, 0, j - 1); }
        }
      } else {
        assert NodeOk(t, top, q);
        forall j | 0 <= j < |t'[q].kids| ensures KidOk(t', q, j) {
          assert KidOk(t, q, j);
          if j > 0 { assert KidOk(t, q, j - 1); }
          if t[q].kids[j] in t[0].kids { ListedByParent(t, top, 0, t[q].kids[j]); }
        }
        if q in t[0].kids {
          assert KidOk(t, 0, IndexIn(t[0].kids, q));
        } else {
          assert t[q].parent != 0;
          assert NodeOk(t, top, t[q].parent);
        }
      }
    }
  }

  // ------------------------------------------------------------------
  // Splitting a node p (not the root) at key m: p keeps its first `cut` children,
  // the new page n takes the rest and stands right after p in p's parent.

  ghost predicate CanSplit(t: Nodes, top: int, p: nat, n: nat, m: int, cut: nat)
  {
    && TreeOk(t, top)
    && p in t && p != 0 && n !in t
    && t[p].lo < m < t[p].hi && (t[p].hi == INF ==> m < top)
    && if t[p].ht == 0 then cut == 0
       else 0 < cut < |t[p].kids| && t[p].kids[cut - 1] in t && m == t[t[p].kids[cut - 1]].hi
  }

  ghost function SplitNode(t: Nodes, p: nat, n: nat, m: int, cut: nat, q: nat): Node
    requires p in t && t[p].parent in t && p in t[t[p].parent].kids
    requires cut <= |t[p].kids| && (q in t || q == n)
  {
    if q == n then Node(t[p].ht, m, t[p].hi, Upper(t[p].kids, cut), t[p].parent)
    else if q == p then t[p].(hi := m, kids := Lower(t[p].kids, cut))
    else if q == t[p].parent then t[q].(kids := InsertAt(t[q].kids, IndexIn(t[q].kids, p) + 1, n))
    else if q in Upper(t[p].kids, cut) then t[q].(parent := n)
    else t[q]
  }

  ghost function Split(t: Nodes, p: nat, n: nat, m: int, cut: nat): (t': Nodes)
    requires p in t && t[p].parent in t && p in t[t[p].parent].kids && cut <= |t[p].kids|
    ensures t'.Keys == t.Keys + {n}
  {
    map q | q in t.Keys + {n} :: SplitNode(t, p, n, m, cut, q)
  }

  lemma SplitOk(t: Nodes, top: int, p: nat, n: nat, m: int, cut: nat)
    requires CanSplit(t, top, p, n, m, cut)
    ensures t[p].parent in t && p in t[t[p].parent].kids && cut <= |t[p].kids|
    ensures TreeOk(Split(t, p, n, m, cut), top)
  {
    assert NodeOk(t, top, p);
    var t' := Split(t, p, n, m, cut);
    var r := t[p].parent;
    assert NodeOk(t, top, r);
    assert KidOk(t, r, IndexIn(t[r].kids, p));
    forall q | q in t' ensures NodeOk(t', top, q) {
      if q == n {
        SplitOkNew(t, top, p, n, m, cut);
      } else if q == p {
        SplitOkOld(t, top, p, n, m, cut);
      } else if q == r {
        SplitOkParent(t, top, p, n, m, cut);
      } else {
        SplitOkOther(t, top, p, n, m, cut, q);
      }
    }
  }

  lemma SplitOkNew(t: Nodes, top: int, p: nat, n: nat, m: int, cut: nat)
    requires CanSplit(t, top, p, n, m, cut)
    requires t[p].parent in t && p in t[t[p].parent].kids && cut <= |t[p].kids|
    ensures NodeOk(Split(t, p, n, m, cut), top, n)
  {
    var t' := Split(t, p, n, m, cut);
    var r := t[p].parent;
    assert NodeOk(t, top, p) && NodeOk(t, top, r);
    assert KidOk(t, r, IndexIn(t[r].kids, p));
    assert t'[r].kids[IndexIn(t[r].kids, p) + 1] == n;
    forall j | 0 <= j < |t'[n].kids| ensures KidOk(t', n, j) {
      assert KidOk(t, p, cut + j) && KidOk(t, p, cut + j - 1);
      assert t'[n].kids[j] == t[p].kids[cut + j];
      if j == 0 {
        KidsDistinct(t, top, p);
      }
    }
  }

  lemma SplitOkOld(t: Nodes, top: int, p: nat, n: nat, m: int, cut: nat)
    requires CanSplit(t, top, p, n, m, cut)
    requires t[p].parent in t && p in t[t[p].parent].kids && cut <= |t[p].kids|
    ensures NodeOk(Split(t, p, n, m, cut), top, p)
  {
    var t' := Split(t, p, n, m, cut);
    var r := t[p].parent;
    assert NodeOk(t, top, p) && NodeOk(t, top, r);
    var i := IndexIn(t[r].kids, p);
    assert KidOk(t, r, i);
    assert t'[r].kids[i] == p;
    KidsDistinct(t, top, p);
    forall j | 0 <= j < |t'[p].kids| ensures KidOk(t', p, j) {
      assert KidOk(t, p, j);
      if j > 0 { assert KidOk(t, p, j - 1); }
    }
  }

  lemma SplitOkParent(t: Nodes, top: int, p: nat, n: nat, m: int, cut: nat)
    requires CanSplit(t, top, p, n, m, cut)
    requires t[p].parent in t && p in t[t[p].parent].kids && cut <= |t[p].kids|
    ensures NodeOk(Split(t, p, n, m, cut), top, t[p].parent)
  {
    var t' := Split(t, p, n, m, cut);
    var r := t[p].parent;
    assert NodeOk(t, top, p) && NodeOk(t, top, r);
    var i := IndexIn(t[r].kids, p);
    assert KidOk(t, r, i);
    KidsDistinct(t, top, r);
    forall j | 0 <= j < |t'[r].kids| ensures KidOk(t', r, j) {
      if j <= i {
        assert KidOk(t, r, j);
        if j > 0 { assert KidOk(t, r, j - 1); }
      } else if j > i + 1 {
        assert KidOk(t, r, j - 1) && KidOk(t, r, j - 2);
      }
      if t'[r].kids[j] in Upper(t[p].kids, cut) { ListedByParent(t, top, p, t'[r].kids[j]); }
    }
    if r != 0 {
      assert NodeOk(t, top, t[r].parent);
      ListedByParent(t, top, t[r].parent, r);
    }
  }

  lemma SplitOkOther(t: Nodes, top: int, p: nat, n: nat, m: int, cut: nat, q: nat)
    requires CanSplit(t, top, p, n, m, cut)
    requires t[p].parent in t && p in t[t[p].parent].kids && cut <= |t[p].kids|
    requires q in t && q != p && q != t[p].parent
    ensures NodeOk(Split(t, p, n, m, cut), top, q)
  {
    var t' := Split(t, p, n, m, cut);
    assert NodeOk(t, top, q) && NodeOk(t, top, 0);
    ListedByParent(t, top, t[p].parent, p);
    forall j | 0 <= j < |t'[q].kids| ensures KidOk(t', q, j) {
      assert KidOk(t, q, j);
      if j > 0 { assert KidOk(t, q, j - 1); }
      if t[q].kids[j] in Upper(t[p].kids, cut) { ListedByParent(t, top, p, t[q].kids[j]); }
    }
    if q != 0 {
      SplitKeepsListing(t, top, p, n, m, cut, q);
    }
  }

  lemma SplitKeepsListing(t: Nodes, top: int, p: nat, n: nat, m: int, cut: nat, q: nat)
    requires CanSplit(t, top, p, n, m, cut)
    requires t[p].parent in t && p in t[t[p].parent].kids && cut <= |t[p].kids|
    requires q in t && q != p && q != t[p].parent && q != 0
    ensures var t' := Split(t, p, n, m, cut); t'[q].parent in t' && q in t'[t'[q].parent].kids
  {
    var t' := Split(t, p, n, m, cut);
    var r, w := t[p].parent, t[q].parent;
    assert NodeOk(t, top, q);
    var j := IndexIn(t[w].kids, q);
    if w == p {
      ListedByParent(t, top, p, q);
      if cut <= j {
        assert Upper(t[p].kids, cut)[j - cut] == q;
      } else {
        KidsDistinct(t, top, p);
        assert Lower(t[p].kids, cut)[j] == q;
      }
    } else {
      if q in Upper(t[p].kids, cut) { ListedByParent(t, top, p, q); }
      if w == r {
        var i := IndexIn(t[r].kids, p);
        assert t'[r].kids[if j <= i then j else j + 1] == q;
      }
    }
  }
}
