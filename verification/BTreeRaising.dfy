/** Value-level lemmas about carrying a split to the level above: the parent's separator, or a new root. */
module BTreeRaising {
  import opened Sequences
  import opened BTreeShape
  import opened BTreePages
  import opened BTreePlacing
  import opened BTreeSplitting

  // ------------------------------------------------------------------
  // Finding a child and setting its separator

  lemma InnerAscends(c: Caps, page: Page, g: Model, r: nat)
    requires TreeOk(g.t, g.top) && r in g.t && Sized(c, page) && InnerOk(c, page, g.t, r)
    ensures SlotsAscend(page)
  {
    forall i, j | 0 <= i < j < page.count ensures page.slots[i].key < page.slots[j].key {
      KidsAscend(g.t, g.top, r, i, j);
      assert NodeOk(g.t, g.top, g.t[r].kids[j]);
    }
  }

  // Searching for a key in the range of child i finds child i.
  lemma FindsKid(c: Caps, page: Page, g: Model, r: nat, i: nat, key: Key, j: nat)
    requires TreeOk(g.t, g.top) && r in g.t && Sized(c, page) && InnerOk(c, page, g.t, r)
    requires i < |g.t[r].kids| && g.t[r].kids[i] in g.t && Covers(g.t, g.t[r].kids[i], key)
    requires FirstNotBelow(page, key, j)
    ensures j == i
  {
    var kids := g.t[r].kids;
    assert i < page.count ==> page.slots[i].key == g.t[kids[i]].hi;
    if j < i {
      KidsAscend(g.t, g.top, r, j, i);
    }
  }

  lemma SplitParent(g: Model, o: nat, n: nat, m: Key, cut: nat, j: nat)
    requires CanSplit(g.t, g.top, o, n, m, cut)
    requires g.t[o].parent in g.t && o in g.t[g.t[o].parent].kids && cut <= |g.t[o].kids|
    requires j < |g.t[g.t[o].parent].kids| && g.t[g.t[o].parent].kids[j] == o
    ensures var t', r := Split(g.t, o, n, m, cut), g.t[o].parent;
            && t'[r] == g.t[r].(kids := InsertAt(g.t[r].kids, j + 1, n))
            && forall i | 0 <= i < |g.t[r].kids| ::
                 g.t[r].kids[i] in g.t && t'[g.t[r].kids[i]].hi == if i == j then m else g.t[g.t[r].kids[i]].hi
  {
    var r := g.t[o].parent;
    KidsDistinct(g.t, g.top, r);
    assert IndexIn(g.t[r].kids, o) == j;
    ListedByParent(g.t, g.top, r, o);
    forall i | 0 <= i < |g.t[r].kids| ensures g.t[r].kids[i] in g.t && g.t[r].kids[i] != r {
      ListedByParent(g.t, g.top, r, g.t[r].kids[i]);
    }
  }

  lemma SlotLowered(c: Caps, page: Page, page': Page, t: Nodes, t': Nodes, r: nat, m: Key, j: nat)
    requires r in t && Sized(c, page) && InnerOk(c, page, t, r) && j < |t[r].kids|
    requires page' == page.(slots := page.slots[j := page.slots[j].(key := m)])
    requires t.Keys <= t'.Keys
    requires forall i | 0 <= i < |t[r].kids| ::
               t[r].kids[i] in t && t'[t[r].kids[i]].hi == if i == j then m else t[t[r].kids[i]].hi
    ensures Sized(c, page') && Children(page') == t[r].kids
    ensures ExactUpTo(page', t', page'.count)
  {
    assert Children(page') == Children(page);
  }

  // Parent r of a split node o, after the separator of o was lowered to the split key:
  // it lacks the new node n right after o.
  lemma SeparatorSet(c: Caps, page: Page, page': Page, g: Model, o: nat, n: nat, m: Key, cut: nat, j: nat)
    requires CanSplit(g.t, g.top, o, n, m, cut)
    requires g.t[o].parent in g.t && o in g.t[g.t[o].parent].kids && cut <= |g.t[o].kids|
    requires g.t[g.t[o].parent].ht > 0
    requires BodyOk(c, page, g, g.t[o].parent) && (g.t[o].parent != 0 ==> page.parent == g.t[g.t[o].parent].parent)
    requires j < |g.t[g.t[o].parent].kids| && g.t[g.t[o].parent].kids[j] == o
    requires page' == page.(slots := page.slots[j := page.slots[j].(key := m)])
    ensures var g', r := g.(t := Split(g.t, o, n, m, cut)), g.t[o].parent;
            && g'.t[r] == g.t[r].(kids := InsertAt(g.t[r].kids, j + 1, n))
            && Lacking(c, page', g', r, j + 1)
  {
    var g', r := g.(t := Split(g.t, o, n, m, cut)), g.t[o].parent;
    SeparatorExact(c, page, page', g, o, n, m, cut, j);
    InsertedRemoved(g.t[r].kids, j + 1, n);
    SplitOk(g.t, g.top, o, n, m, cut);
  }

  lemma SeparatorExact(c: Caps, page: Page, page': Page, g: Model, o: nat, n: nat, m: Key, cut: nat, j: nat)
    requires CanSplit(g.t, g.top, o, n, m, cut)
    requires g.t[o].parent in g.t && o in g.t[g.t[o].parent].kids && cut <= |g.t[o].kids|
    requires g.t[g.t[o].parent].ht > 0 && Sized(c, page) && InnerOk(c, page, g.t, g.t[o].parent)
    requires j < |g.t[g.t[o].parent].kids| && g.t[g.t[o].parent].kids[j] == o
    requires page' == page.(slots := page.slots[j := page.slots[j].(key := m)])
    ensures var t', r := Split(g.t, o, n, m, cut), g.t[o].parent;
            && t'[r] == g.t[r].(kids := InsertAt(g.t[r].kids, j + 1, n))
            && Sized(c, page') && Children(page') == g.t[r].kids && ExactUpTo(page', t', page'.count)
  {
    SplitParent(g, o, n, m, cut, j);
    SlotLowered(c, page, page', g.t, Split(g.t, o, n, m, cut), g.t[o].parent, m, j);
  }

  // ------------------------------------------------------------------
  // The pending child arrives

  lemma PlacedSettles(c: Caps, s: seq<Page>, s': seq<Page>, g: Model, p: nat, x: nat, pos: nat)
    requires Pending(c, s, g, p, x, pos) && |g.t[p].kids| <= c.innerMax + 1 && s[x].parent == p
    requires |s'| == |s| && s' == s[p := s'[p]]
    requires Placed(c, g, s[p], s'[p], x, g.t[p].ht - 1, pos)
    ensures TableOk(c, s', g)
  {
    ListedByParent(g.t, g.top, p, x);
    forall q {:trigger PageOk(c, s', g, q)} | q in g.t ensures PageOk(c, s', g, q) {
      if q == p {
        PlacedBody(c, s[p], s'[p], g, p, x, pos);
      } else if q != x {
        assert PageOk(c, s, g, q);
      }
    }
  }

  // The parent that the missing child names does not matter.
  lemma PendingReparented(c: Caps, s: seq<Page>, g: Model, p: nat, x: nat, pos: nat, v: nat)
    requires Pending(c, s, g, p, x, pos)
    ensures Pending(c, s[x := s[x].(parent := v)], g, p, x, pos)
  {
    var s' := s[x := s[x].(parent := v)];
    ListedByParent(g.t, g.top, p, x);
    ReparentedBody(c, s[x], g, x, v);
    forall q {:trigger PageOk(c, s', g, q)} | q in g.t && q != p && q != x ensures PageOk(c, s', g, q) {
      assert PageOk(c, s, g, q);
    }
  }

  lemma PlacedBody(c: Caps, was: Page, page: Page, g: Model, p: nat, x: nat, pos: nat)
    requires TreeOk(g.t, g.top) && p in g.t && g.t[p].ht > 0
    requires pos < |g.t[p].kids| && g.t[p].kids[pos] == x && Lacking(c, was, g, p, pos)
    requires Placed(c, g, was, page, x, g.t[p].ht - 1, pos)
    ensures BodyOk(c, page, g, p)
  {
    var kids := g.t[p].kids;
    assert Children(page) == kids by { InsertRemoved(kids, pos); }
    forall j | 0 <= j < page.count ensures kids[j] in g.t && page.slots[j].key == g.t[kids[j]].hi {
      KidsAscend(g.t, g.top, p, j, j + 1);
      assert Children(page)[j] == kids[j];
    }
  }

  // ------------------------------------------------------------------
  // A node other than the root: allocate the new page

  lemma PendingReady(c: Caps, s: seq<Page>, s': seq<Page>, g: Model, p: nat, x: nat, pos: nat)
    requires Pending(c, s, g, p, x, pos) && p != 0 && |g.t[p].kids| == c.innerMax + 2
    requires |s| < FILE_PAGES_NUM && |s'| == |s| + 1 && s'[..|s|] == s
    requires var page := s'[|s|];
             Sized(c, page) && page.nodeType == INTERNAL && !page.isRoot && page.count == 0
             && page.link == INVALID_PAGE_NUM
    ensures SplitReady(c, s', g, p, |s|, x, pos)
    ensures g.t[p].parent in g.t && PageOk(c, s', g, g.t[p].parent)
  {
    assert NodeOk(g.t, g.top, p);
    ListedByParent(g.t, g.top, g.t[p].parent, p);
    ListedByParent(g.t, g.top, p, x);
    forall q: nat | q < |s| ensures s'[q] == s[q] {
      assert s'[..|s|][q] == s[q];
    }
    forall q {:trigger PageOk(c, s', g, q)} | q in g.t && q != p && q != x ensures PageOk(c, s', g, q) {
      assert PageOk(c, s, g, q);
    }
    assert PageOk(c, s', g, g.t[p].parent);
  }

  // ------------------------------------------------------------------
  // The root: its content moves to page l, n is the new right child

  ghost predicate NewRoot(c: Caps, s0: seq<Page>, s: seq<Page>, g: Model) {
    var n, l := |s0|, |s0| + 1;
    && 0 < |s0| && |s| == |s0| + 2
    && Sized(c, s0[0]) && s0[0].count <= c.innerMax
    && s0[0].link in g.t
    && Sized(c, s[0])
    && s[0] == s0[0].(isRoot := true, count := 1, link := n, slots := s[0].slots)
    && s[0].slots[0].child == l
    && s[0].slots[0].key == MaxBelow(g.t, g.top, s0[0].link)
    && s[l] == s0[0].(isRoot := false, parent := 0)
    && Sized(c, s[n]) && s[n].nodeType == INTERNAL && !s[n].isRoot
    && s[n].count == 0 && s[n].link == INVALID_PAGE_NUM && s[n].parent == 0
    && forall q | 0 < q < |s0| ::
         s[q] == if q in Children(s0[0]) then s0[q].(parent := l) else s0[q]
  }

  // The root's content was copied to page l, its children follow it; the root page itself is unchanged yet.
  ghost predicate RootCopied(c: Caps, s0: seq<Page>, s: seq<Page>) {
    var n, l := |s0|, |s0| + 1;
    && 0 < |s0| && |s| == |s0| + 2 && Sized(c, s0[0]) && s0[0].count <= c.innerMax
    && s[0] == s0[0]
    && s[l] == s0[0].(isRoot := false)
    && Sized(c, s[n]) && s[n].nodeType == INTERNAL && !s[n].isRoot
    && s[n].count == 0 && s[n].link == INVALID_PAGE_NUM
    && forall q | 0 < q < |s0| ::
         s[q] == if q in Children(s0[0]) then s0[q].(parent := l) else s0[q]
  }

  ghost predicate NewRootOverLeaf(c: Caps, s0: seq<Page>, s: seq<Page>, right: nat) {
    var l := |s0|;
    && 0 < right < |s0| && |s| == |s0| + 1
    && Sized(c, s0[0]) && 0 < s0[0].count <= c.leafMax
    && Sized(c, s[0])
    && s[0] == s0[0].(nodeType := INTERNAL, isRoot := true, count := 1, link := right, slots := s[0].slots)
    && s[0].slots[0] == Slot(l, s0[0].cells[s0[0].count - 1].key)
    && s[l] == s0[0].(isRoot := false, parent := 0)
    && s[right] == s0[right].(parent := 0)
    && forall q | 0 < q < |s0| && q != right :: s[q] == s0[q]
  }

  lemma GrownBody(c: Caps, page: Page, g: Model, l: nat, q: nat)
    requires TreeOk(g.t, g.top) && l !in g.t && q != 0 && BodyOk(c, page, g, q) && g.t[0].ht > 0
    ensures BodyOk(c, page, g.(t := Grow(g.t, l)), q)
  {
    if g.t[q].ht > 0 {
      forall j | 0 <= j < page.count ensures Grow(g.t, l)[g.t[q].kids[j]].hi == g.t[g.t[q].kids[j]].hi {
        ListedByParent(g.t, g.top, q, g.t[q].kids[j]);
      }
    }
  }

  lemma GrownLacking(c: Caps, page: Page, page': Page, g: Model, l: nat, pos: nat)
    requires TreeOk(g.t, g.top) && l !in g.t && l != 0 && g.t[0].ht > 0
    requires pos < |g.t[0].kids| && Lacking(c, page, g, 0, pos)
    requires page' == page.(isRoot := false, parent := 0)
    ensures var g' := g.(t := Grow(g.t, l)); g'.t[l].kids == g.t[0].kids && Lacking(c, page', g', l, pos)
  {
    var g' := g.(t := Grow(g.t, l));
    assert Children(page') == Children(page);
    forall j | 0 <= j < Lasting(c, page')
      ensures Children(page')[j] in g'.t && page'.slots[j].key == g'.t[Children(page')[j]].hi
    {
      var i := if j < pos then j else j + 1;
      assert Children(page)[j] == g.t[0].kids[i];
      ListedByParent(g.t, g.top, 0, g.t[0].kids[i]);
    }
  }

  lemma GrownPages(c: Caps, s0: seq<Page>, s: seq<Page>, g: Model, x: nat, pos: nat)
    requires Pending(c, s0, g, 0, x, pos) && NewRoot(c, s0, s, g)
    ensures var l := |s0| + 1;
            var g' := g.(t := Grow(g.t, l));
            && x < |s| && BodyOk(c, s[x], g', x)
            && forall q {:trigger PageOk(c, s, g', q)} | q in g.t && q != 0 && q != x :: PageOk(c, s, g', q)
  {
    var l := |s0| + 1;
    var g' := g.(t := Grow(g.t, l));
    ListedByParent(g.t, g.top, 0, x);
    GrownBodyOf(c, s0[0], s0[x], s[x], g, l, x);
    forall q {:trigger PageOk(c, s, g', q)} | q in g.t && q != 0 && q != x ensures PageOk(c, s, g', q) {
      assert PageOk(c, s0, g, q);
      GrownOther(c, s0[0], s0[q], s[q], g, l, pos, q);
    }
  }

  lemma GrownFan(t: Nodes, innerMax: nat, l: nat)
    requires 0 in t && FanOk(t, innerMax, 0)
    ensures FanExcept(Grow(t, l), innerMax, l, 0)
  {
  }

  lemma GrownReady(c: Caps, s0: seq<Page>, s: seq<Page>, g: Model, x: nat, pos: nat)
    requires Pending(c, s0, g, 0, x, pos) && |g.t[0].kids| == c.innerMax + 2
    requires |s0| + 2 <= FILE_PAGES_NUM && NewRoot(c, s0, s, g)
    ensures var n, l := |s0|, |s0| + 1;
            var g' := g.(t := Grow(g.t, l));
            l !in g.t && TreeOk(g'.t, g'.top) && SplitReady(c, s, g', l, n, x, pos)
            && g'.t[l].parent == 0 && g'.t[0].kids == [l]
  {
    var l := |s0| + 1;
    GrowOk(g.t, g.top, l);
    GrownFan(g.t, c.innerMax, l);
    GrownLacking(c, s0[0], s[l], g, l, pos);
    ListedByParent(g.t, g.top, 0, x);
    GrownPages(c, s0, s, g, x, pos);
  }

  lemma GrownBodyOf(c: Caps, root: Page, was: Page, page: Page, g: Model, l: nat, q: nat)
    requires TreeOk(g.t, g.top) && l !in g.t && g.t[0].ht > 0 && root.count <= |root.slots|
    requires q != 0 && BodyOk(c, was, g, q)
    requires page == if q in Children(root) then was.(parent := l) else was
    ensures BodyOk(c, page, g.(t := Grow(g.t, l)), q)
  {
    ReparentedBody(c, was, g, q, page.parent);
    GrownBody(c, page, g, l, q);
  }

  lemma GrownOther(c: Caps, root: Page, was: Page, page: Page, g: Model, l: nat, pos: nat, q: nat)
    requires TreeOk(g.t, g.top) && l !in g.t && g.t[0].ht > 0
    requires pos < |g.t[0].kids| && Lacking(c, root, g, 0, pos)
    requires q != 0 && BodyOk(c, was, g, q) && was.parent == g.t[q].parent
    requires page == if q in Children(root) then was.(parent := l) else was
    ensures BodyOk(c, page, g.(t := Grow(g.t, l)), q)
    ensures q != g.t[0].kids[pos] ==> page.parent == Grow(g.t, l)[q].parent
  {
    GrownBodyOf(c, root, was, page, g, l, q);
    GrownKids(c, root, g, pos, q);
  }

  // Apart from the pending child, the root page lists exactly its children.
  lemma GrownKids(c: Caps, page: Page, g: Model, pos: nat, q: nat)
    requires TreeOk(g.t, g.top) && pos < |g.t[0].kids| && Lacking(c, page, g, 0, pos)
    ensures q != g.t[0].kids[pos] ==> (q in Children(page) <==> q in g.t[0].kids)
  {
    var kids := g.t[0].kids;
    if q in Children(page) {
      var j := IndexIn(Children(page), q);
      assert q == kids[if j < pos then j else j + 1];
    }
    if q in kids && q != kids[pos] {
      var j := IndexIn(kids, q);
      assert q == Children(page)[if j < pos then j else j - 1];
    }
  }

  // ------------------------------------------------------------------
  // After the division: the parent again

  // The largest key on a page that lacks a child still lies in the node's range.
  lemma LackingCovers(c: Caps, page: Page, g: Model, p: nat, pos: nat)
    requires TreeOk(g.t, g.top) && p in g.t && g.t[p].ht > 0
    requires pos < |g.t[p].kids| && Lacking(c, page, g, p, pos)
    ensures page.link in g.t && g.t[page.link].ht == g.t[p].ht - 1
    ensures Covers(g.t, p, MaxBelow(g.t, g.top, page.link))
  {
    var kids := g.t[p].kids;
    var i := if page.count < pos then page.count else page.count + 1;
    assert page.link == Children(page)[page.count] == kids[i];
    ListedByParent(g.t, g.top, p, kids[i]);
    KidRange(g.t, g.top, p, i);
    MaxBelowInRange(g.t, g.top, kids[i]);
  }

  lemma SplitFan(t: Nodes, innerMax: nat, o: nat, n: nat, m: int, cut: nat)
    requires o in t && t[o].parent in t && o in t[t[o].parent].kids && t[o].parent != o && n !in t
    requires FanExcept(t, innerMax, o, t[o].parent)
    requires 2 <= cut <= innerMax + 1 && |t[o].kids| == innerMax + 2 && 2 <= innerMax + 2 - cut
    ensures FanExcept(Split(t, o, n, m, cut), innerMax, t[o].parent, t[o].parent)
  {
    var t' := Split(t, o, n, m, cut);
    forall q | q in t' && t'[q].ht > 0 && q != t[o].parent ensures 2 <= |t'[q].kids| <= innerMax + 1 {
      if q != o && q != n {
        assert q in t && t'[q].kids == t[q].kids && t'[q].ht == t[q].ht;
      }
    }
  }

  // Splitting keeps every node below and at height h, parents aside.
  ghost predicate SameUpTo(t: Nodes, t': Nodes, h: int) {
    forall q {:trigger q in t'} {:trigger t'[q]} | q in t && t[q].ht <= h ::
      q in t' && t'[q] == t[q].(parent := t'[q].parent)
  }

  lemma SameTransitive(t: Nodes, t1: Nodes, t2: Nodes, h: int)
    requires SameUpTo(t, t1, h) && SameUpTo(t1, t2, h)
    ensures SameUpTo(t, t2, h)
  {
  }

  lemma SplitSame(t: Nodes, top: int, o: nat, n: nat, m: int, cut: nat)
    requires CanSplit(t, top, o, n, m, cut)
    requires t[o].parent in t && o in t[t[o].parent].kids && cut <= |t[o].kids|
    ensures SameUpTo(t, Split(t, o, n, m, cut), t[o].ht - 1)
  {
    ListedByParent(t, top, t[o].parent, o);
  }

  lemma GrowSame(t: Nodes, top: int, l: nat)
    requires TreeOk(t, top) && l !in t
    ensures SameUpTo(t, Grow(t, l), t[0].ht - 1)
  {
  }

  // The state after the upper half moved and x was placed: all pages but the parent's are in order.
  ghost predicate AlmostSplit(c: Caps, s: seq<Page>, g: Model, r: nat, n: nat) {
    && TreeOk(g.t, g.top)
    && r in g.t && n in g.t && n != r
    && FanExcept(g.t, c.innerMax, r, r)
    && |s| <= FILE_PAGES_NUM
    && g.t.Keys == PageNumbers(|s|)
    && (forall q {:trigger PageOk(c, s, g, q)} | q in g.t && q != r && q != n :: PageOk(c, s, g, q))
    && BodyOk(c, s[n], g, n)
  }

  lemma ReadyModel(c: Caps, s0: seq<Page>, g: Model, o: nat, n: nat, x: nat, pos: nat)
    requires SplitReady(c, s0, g, o, n, x, pos)
    ensures g.t[o].kids[Cut(c, pos) - 1] in g.t
    ensures g.t[o].parent in g.t && o in g.t[g.t[o].parent].kids && g.t[o].parent !in g.t[o].kids
    ensures g.t[o].parent != o
    ensures var g', r := SplitModel(g, o, n, Cut(c, pos)), g.t[o].parent;
            && FanExcept(g'.t, c.innerMax, r, r)
            && SameUpTo(g.t, g'.t, g.t[o].ht - 1)
  {
    var cut := Cut(c, pos);
    CanSplitKids(g, o, n, cut);
    ListedByParent(g.t, g.top, g.t[o].parent, o);
    if g.t[o].parent in g.t[o].kids {
      ListedByParent(g.t, g.top, o, g.t[o].parent);
    }
    SplitFan(g.t, c.innerMax, o, n, g.t[g.t[o].kids[cut - 1]].hi, cut);
    SplitSame(g.t, g.top, o, n, g.t[g.t[o].kids[cut - 1]].hi, cut);
  }

  // The division leaves the parent's page and the new node's parent pointer alone.
  lemma DividedFrame(c: Caps, s0: seq<Page>, s: seq<Page>, g: Model, o: nat, n: nat, x: nat, pos: nat)
    requires SplitReady(c, s0, g, o, n, x, pos)
    requires Divided(c, s0, s, g, o, n, g.t[o].ht - 1, g.t[o].kids, x, Cut(c, pos))
    ensures g.t[o].parent in g.t
    ensures s[g.t[o].parent] == s0[g.t[o].parent] && s[n].parent == s0[n].parent
  {
    ReadyModel(c, s0, g, o, n, x, pos);
  }

  lemma DividedAlmost(c: Caps, s0: seq<Page>, s: seq<Page>, g: Model, o: nat, n: nat, x: nat, pos: nat)
    requires SplitReady(c, s0, g, o, n, x, pos)
    requires Divided(c, s0, s, g, o, n, g.t[o].ht - 1, g.t[o].kids, x, Cut(c, pos))
    ensures g.t[o].kids[Cut(c, pos) - 1] in g.t
    ensures g.t[o].parent in g.t && o in g.t[g.t[o].parent].kids
    ensures AlmostSplit(c, s, SplitModel(g, o, n, Cut(c, pos)), g.t[o].parent, n)
  {
    ReadyModel(c, s0, g, o, n, x, pos);
    DividedPages(c, s0, s, g, o, n, x, pos);
  }

  // The parent is an ordinary node: with its separator lowered it now lacks the new node.
  lemma RaisePending(c: Caps, s: seq<Page>, s': seq<Page>, g: Model, r: nat, n: nat, pos: nat)
    requires AlmostSplit(c, s, g, r, n) && n != 0
    requires 0 < pos < |g.t[r].kids| && g.t[r].kids[pos] == n && 3 <= |g.t[r].kids| <= c.innerMax + 2
    requires |s'| == |s| && Lacking(c, s'[r], g, r, pos) && g.t[r].ht > 0
    requires s' == s[r := s'[r]]
    ensures Pending(c, s', g, r, n, pos)
  {
    ListedByParent(g.t, g.top, r, n);
    forall q {:trigger PageOk(c, s', g, q)} | q in g.t && q != r && q != n ensures PageOk(c, s', g, q) {
      assert PageOk(c, s, g, q);
    }
  }

  // The parent is the new root.
  lemma RaiseRoot(c: Caps, s: seq<Page>, s': seq<Page>, g: Model, n: nat)
    requires AlmostSplit(c, s, g, 0, n) && n < |s| && s[n].parent == 0 == g.t[n].parent
    requires |g.t[0].kids| == 2
    requires |s'| == |s| && s' == s[0 := s'[0]] && BodyOk(c, s'[0], g, 0)
    ensures TableOk(c, s', g)
  {
    forall q {:trigger PageOk(c, s', g, q)} | q in g.t ensures PageOk(c, s', g, q) {
      if q != 0 && q != n {
        assert PageOk(c, s, g, q);
      }
    }
  }

  // The largest key of the lower part is the split key.
  lemma PartMax(c: Caps, was: Page, page: Page, g: Model, o: nat, cut: nat)
    requires TreeOk(g.t, g.top) && o in g.t && g.t[o].ht > 0 && 0 < cut < |g.t[o].kids|
    requires PartOk(c, was, page, g, g.t[o].ht - 1, Lower(g.t[o].kids, cut))
    ensures g.t[o].kids[cut - 1] in g.t && page.link == g.t[o].kids[cut - 1]
    ensures g.t[page.link].ht == g.t[o].ht - 1
    ensures MaxBelow(g.t, g.top, page.link) == g.t[g.t[o].kids[cut - 1]].hi < INF
  {
    assert Children(page)[page.count] == page.link;
    KidsAscend(g.t, g.top, o, cut - 1, cut);
    ListedByParent(g.t, g.top, o, g.t[o].kids[cut - 1]);
  }

  // The page of a new root over o and n.
  lemma RootPage(c: Caps, page: Page, g: Model, o: nat, n: nat, m: Key, cut: nat)
    requires CanSplit(g.t, g.top, o, n, m, cut)
    requires g.t[o].parent == 0 && g.t[0].kids == [o] && cut <= |g.t[o].kids| && n < INVALID_PAGE_NUM
    requires Sized(c, page) && page.nodeType == INTERNAL && page.isRoot
    requires page.count == 1 && page.link == n && page.slots[0] == Slot(o, m)
    ensures 0 in g.t && o in g.t[0].kids
    ensures var g' := g.(t := Split(g.t, o, n, m, cut));
            BodyOk(c, page, g', 0) && g'.t[0].kids == [o, n] && g'.t[n].parent == 0
  {
    SplitParent(g, o, n, m, cut, 0);
    ListedByParent(g.t, g.top, 0, o);
    assert Children(page) == [o, n];
  }

  // Both halves of a split node, and the key that divides them.
  ghost predicate SplitResult(was: Node, t: Nodes, o: nat, n: nat, cut: nat) {
    && o in t && n in t && cut <= |was.kids|
    && t[o].kids == Lower(was.kids, cut) && t[n].kids == Upper(was.kids, cut)
    && t[o].lo == was.lo && t[o].hi == t[n].lo && t[n].hi == was.hi
    && t[o].ht == t[n].ht
  }

  lemma SplitModelResult(g: Model, o: nat, n: nat, cut: nat)
    requires TreeOk(g.t, g.top) && o in g.t && o != 0 && n !in g.t && 0 < cut < |g.t[o].kids|
    ensures g.t[o].kids[cut - 1] in g.t
    ensures g.t[o].parent in g.t && o in g.t[g.t[o].parent].kids
    ensures SplitResult(g.t[o], SplitModel(g, o, n, cut).t, o, n, cut)
  {
    CanSplitKids(g, o, n, cut);
  }

  // All that holds of the store once the children of o are divided; m is the key that divides them.
  // The model with node o split, as far as it concerns the nodes above.
  ghost predicate NodeSplit(g: Model, g': Model, o: nat, n: nat, m: Key, cut: nat) {
    && TreeOk(g.t, g.top) && CanSplit(g.t, g.top, o, n, m, cut)
    && g.t[o].ht > 0 && cut <= |g.t[o].kids|
    && g.t[o].parent in g.t && o in g.t[g.t[o].parent].kids
    && g' == g.(t := Split(g.t, o, n, m, cut))
    && SplitResult(g.t[o], g'.t, o, n, cut)
    && SameUpTo(g.t, g'.t, g.t[o].ht - 1)
  }

  ghost predicate DivisionDone(c: Caps, s0: seq<Page>, s: seq<Page>, g: Model, g': Model, o: nat, n: nat, m: Key,
                               cut: nat) {
    && NodeSplit(g, g', o, n, m, cut)
    && AlmostSplit(c, s, g', g.t[o].parent, n)
    && |s| == |s0| && o < |s| && n < |s| && g.t[o].parent < |s|
    && s[g.t[o].parent] == s0[g.t[o].parent] && s[n].parent == s0[n].parent
    && SpineOk(s, g, g.t[o].ht - 1)
    && s[o].nodeType == INTERNAL && s[o].link in g.t && g.t[s[o].link].ht == g.t[o].ht - 1
    && MaxBelow(g.t, g.top, s[o].link) == m
  }

  lemma DivideDone(c: Caps, s0: seq<Page>, s: seq<Page>, g: Model, o: nat, n: nat, x: nat, pos: nat) returns (m: Key)
    requires SplitReady(c, s0, g, o, n, x, pos)
    requires Divided(c, s0, s, g, o, n, g.t[o].ht - 1, g.t[o].kids, x, Cut(c, pos))
    ensures g.t[o].parent in g.t && o in g.t[g.t[o].parent].kids
    ensures DivisionDone(c, s0, s, g, g.(t := Split(g.t, o, n, m, Cut(c, pos))), o, n, m, Cut(c, pos))
  {
    var cut := Cut(c, pos);
    ReadyModel(c, s0, g, o, n, x, pos);
    CanSplitKids(g, o, n, cut);
    SplitModelResult(g, o, n, cut);
    DividedAlmost(c, s0, s, g, o, n, x, pos);
    DividedFrame(c, s0, s, g, o, n, x, pos);
    PartMax(c, s0[o], s[o], g, o, cut);
    DividedSpine(c, s0, s, g, o, n, x, pos);
    m := g.t[g.t[o].kids[cut - 1]].hi;
  }

  lemma DividedSpine(c: Caps, s0: seq<Page>, s: seq<Page>, g: Model, o: nat, n: nat, x: nat, pos: nat)
    requires SplitReady(c, s0, g, o, n, x, pos)
    requires Divided(c, s0, s, g, o, n, g.t[o].ht - 1, g.t[o].kids, x, Cut(c, pos))
    ensures SpineOk(s, g, g.t[o].ht - 1)
  {
    ReadyHalve(c, s0, g, o, n, x, pos);
    DividedBelow(c, s0, s, g, o, n, g.t[o].ht - 1, g.t[o].kids, x, Cut(c, pos));
  }

  lemma DividedBelow(c: Caps, s0: seq<Page>, s: seq<Page>, g: Model, o: nat, n: nat, h: nat, kids: seq<nat>, x: nat,
                     cut: nat)
    requires Divided(c, s0, s, g, o, n, h, kids, x, cut)
    requires o in g.t && g.t[o].ht == h + 1 && n !in g.t && SpineOk(s0, g, h)
    ensures SpineOk(s, g, h)
  {
    SpineFrame(s0, s, g, h);
  }

  lemma GrownMax(t: Nodes, top: int, l: nat, q: nat)
    requires TreeOk(t, top) && l !in t && q in t && q != 0
    ensures MaxBelow(Grow(t, l), top, q) == MaxBelow(t, top, q)
  {
  }

  // The root page of a pending root lists allocated pages other than the root.
  lemma RootChildren(c: Caps, s: seq<Page>, g: Model, x: nat, pos: nat)
    requires Pending(c, s, g, 0, x, pos)
    ensures forall j | 0 <= j < |Children(s[0])| :: 0 < Children(s[0])[j] < |s|
    ensures s[0].link in g.t && g.t[s[0].link].ht == g.t[0].ht - 1 && s[0].link != 0
    ensures x != 0 && x in g.t
  {
    forall j | 0 <= j < |Children(s[0])| ensures 0 < Children(s[0])[j] < |s| {
      var i := if j < pos then j else j + 1;
      assert Children(s[0])[j] == g.t[0].kids[i];
      ListedByParent(g.t, g.top, 0, g.t[0].kids[i]);
    }
    LackingCovers(c, s[0], g, 0, pos);
    assert Children(s[0])[s[0].count] == s[0].link;
    ListedByParent(g.t, g.top, 0, x);
  }

  // The new root page over o and n, before the separator of o is corrected.
  ghost predicate RootOver(c: Caps, s: seq<Page>, g: Model, o: nat, n: nat, key: Key) {
    && o in g.t && g.t[o].parent == 0 && 0 in g.t && g.t[0].kids == [o]
    && 0 < n < |s| <= FILE_PAGES_NUM
    && Sized(c, s[0]) && s[0].nodeType == INTERNAL && s[0].isRoot
    && s[0].count == 1 && s[0].link == n && s[0].slots[0] == Slot(o, key) && s[n].parent == 0
    && Children(s[0])[0] == o
  }

  // The new root is in place: ready to divide the old root's content between l and n.
  lemma NewRootReady(c: Caps, s0: seq<Page>, s: seq<Page>, g: Model, x: nat, pos: nat)
    requires Pending(c, s0, g, 0, x, pos) && |g.t[0].kids| == c.innerMax + 2
    requires |s0| + 2 <= FILE_PAGES_NUM && NewRoot(c, s0, s, g)
    ensures var n, l := |s0|, |s0| + 1;
            var g' := g.(t := Grow(g.t, l));
            && SplitReady(c, s, g', l, n, x, pos)
            && RootOver(c, s, g', l, n, s[0].slots[0].key)
            && MaxBelow(g'.t, g'.top, x) == MaxBelow(g.t, g.top, x)
            && SameUpTo(g.t, g'.t, g.t[0].ht - 1)
            && g'.t[l] == g.t[0].(parent := 0)
  {
    GrownReady(c, s0, s, g, x, pos);
    RootChildren(c, s0, g, x, pos);
    GrownMax(g.t, g.top, |s0| + 1, x);
    GrowSame(g.t, g.top, |s0| + 1);
  }

  lemma SlotSized(c: Caps, page: Page, page': Page, x: Slot)
    requires Sized(c, page) && x.child != INVALID_PAGE_NUM
    requires page' == page.(slots := page.slots[0 := x])
    ensures Sized(c, page')
  {
  }

  lemma RootSearchable(c: Caps, s1: seq<Page>, s: seq<Page>, g: Model, g': Model,
                       o: nat, n: nat, key: Key, m: Key, cut: nat)
    requires RootOver(c, s1, g, o, n, key) && DivisionDone(c, s1, s, g, g', o, n, m, cut)
    ensures TreeOk(g.t, g.top) && o in g.t && g.t[o].ht > 0 && SpineOk(s, g, g.t[o].ht - 1)
    ensures o < |s| && s[o].nodeType == INTERNAL && s[o].link in g.t && g.t[s[o].link].ht == g.t[o].ht - 1
    ensures MaxBelow(g.t, g.top, s[o].link) == m
    ensures 0 < |s1| && 0 < |s| && s[0] == s1[0] && Sized(c, s[0]) && s[0].count == 1 && SlotsAscend(s[0])
  {
  }

  lemma RootFinished(c: Caps, s1: seq<Page>, s: seq<Page>, s': seq<Page>, g: Model, g': Model,
                     o: nat, n: nat, key: Key, m: Key, cut: nat, j: nat)
    requires RootOver(c, s1, g, o, n, key) && DivisionDone(c, s1, s, g, g', o, n, m, cut)
    requires |s'| == |s| && s' == s[0 := s'[0]]
    requires FirstNotBelow(s1[0], key, j)
    requires s'[0] == s1[0].(slots := s1[0].slots[j := s1[0].slots[j].(key := m)])
    ensures TableOk(c, s', g')
  {
    assert j == 0;
    SlotSized(c, s1[0], s'[0], Slot(o, m));
    RootPage(c, s'[0], g, o, n, m, cut);
    RaiseRoot(c, s, s', g', n);
  }

  // ------------------------------------------------------------------
  // A node other than the root, after the division

  lemma InnerSearchable(c: Caps, s1: seq<Page>, s: seq<Page>, g: Model, g': Model,
                        o: nat, n: nat, m: Key, cut: nat, r: nat)
    requires DivisionDone(c, s1, s, g, g', o, n, m, cut) && r == g.t[o].parent && PageOk(c, s1, g, r)
    ensures TreeOk(g.t, g.top) && g.t[o].ht > 0 && SpineOk(s, g, g.t[o].ht - 1)
    ensures o < |s| && s[o].nodeType == INTERNAL && s[o].link in g.t && g.t[s[o].link].ht == g.t[o].ht - 1
    ensures MaxBelow(g.t, g.top, s[o].link) == m
    ensures r < |s1| && r < |s| && s[r] == s1[r] && Sized(c, s[r]) && s[r].count <= c.innerMax && SlotsAscend(s[r])
    ensures r != o && r != n && n < |s| && s[o].parent == r
  {
    ListedByParent(g.t, g.top, r, o);
    InnerAscends(c, s1[r], g, r);
    assert o in g'.t && g'.t[o].parent == r;
    assert PageOk(c, s, g', o);
  }

  lemma InnerFinished(c: Caps, s1: seq<Page>, s: seq<Page>, s': seq<Page>, g: Model, g': Model,
                      o: nat, n: nat, key: Key, m: Key, cut: nat, r: nat, j: nat)
    requires DivisionDone(c, s1, s, g, g', o, n, m, cut) && r == g.t[o].parent && PageOk(c, s1, g, r)
    requires Covers(g.t, o, key) && 2 <= |g.t[r].kids| <= c.innerMax + 1
    requires r < |s| && s[r] == s1[r] && Sized(c, s[r]) && s[r].count <= c.innerMax && n < |s| && r != n
    requires FirstNotBelow(s[r], key, j)
    requires |s'| == |s| && s' == s[r := s'[r]]
    requires s'[r] == s[r].(slots := s[r].slots[j := s[r].slots[j].(key := m)])
    ensures Pending(c, s', g', r, n, j + 1)
    ensures g'.t[r].ht == g.t[o].ht + 1 && 0 in g'.t && g'.t[0].ht == g.t[0].ht && g'.t[r].ht <= g'.t[0].ht
  {
    ListedByParent(g.t, g.top, r, o);
    FindsKid(c, s[r], g, r, IndexIn(g.t[r].kids, o), key, j);
    SeparatorSet(c, s[r], s'[r], g, o, n, m, cut, j);
    assert NodeOk(g.t, g.top, 0) && NodeOk(g.t, g.top, r);
    RaisePending(c, s, s', g', r, n, j + 1);
  }

  lemma PendingInsertable(c: Caps, s: seq<Page>, g: Model, r: nat, n: nat, pos: nat)
    requires Pending(c, s, g, r, n, pos)
    ensures TreeOk(g.t, g.top) && r in g.t && r < |s| && g.t[r].ht > 0
    ensures s[r].count < c.innerMax ==> CanPlace(c, s, g, r, n, g.t[r].ht - 1, pos)
    ensures s[r].count < c.innerMax <==> |g.t[r].kids| <= c.innerMax + 1
    ensures s[r].count >= c.innerMax ==> |g.t[r].kids| == c.innerMax + 2
    ensures g.t[r].ht <= g.t[0].ht
  {
    if s[r].count < c.innerMax {
      PendingPlace(c, s, g, r, n, pos);
    }
    assert |Children(s[r])| == |g.t[r].kids| - 1;
    assert NodeOk(g.t, g.top, r);
  }

  // The table is in order again; below and at height h the tree is as it was, parents aside.
  ghost predicate Settled(c: Caps, s: seq<Page>, was: Model, g: Model, h: int) {
    && TableOk(c, s, g)
    && g.top == was.top && g.rows == was.rows
    && SameUpTo(was.t, g.t, h)
  }

  // A split at height h + 1 followed by settling the level above.
  lemma SettledAbove(c: Caps, s: seq<Page>, g: Model, g1: Model, g2: Model, o: nat, n: nat, m: Key, cut: nat)
    requires NodeSplit(g, g1, o, n, m, cut) && Settled(c, s, g1, g2, g.t[o].ht)
    ensures Settled(c, s, g, g2, g.t[o].ht - 1)
    ensures SplitResult(g.t[o], g2.t, o, n, cut)
  {
    assert g1.t[o].ht == g1.t[n].ht == g.t[o].ht;
    assert g2.t[o] == g1.t[o].(parent := g2.t[o].parent);
    assert g2.t[n] == g1.t[n].(parent := g2.t[n].parent);
    assert SameUpTo(g1.t, g2.t, g.t[o].ht - 1);
    SameTransitive(g.t, g1.t, g2.t, g.t[o].ht - 1);
  }
}
