/**
 Lines 237 and 238 of btree.cpp as they stand: after a split below the root, the new node's parent pointer is copied
 from the old node's, when the insertion into that parent is over. That insertion may itself split the parent, with
 these lines again, and so on towards the root.
 */
module LateParents {
  import opened Sequences
  import opened BTreeShape
  import opened BTreePages
  import opened BTreeSplitting
  import opened BTreeRaising
  import opened BTreeLeaves
  import opened BTreeRoom
  import opened BTreeTable
  import opened BTreeTheorems

  // ------------------------------------------------------------------
  // Where it goes wrong

  // Splitting node p leaves some new node with a wrong parent: the node above is full, and p is the child in its middle
  // or splitting that node does.
  ghost predicate Misplaces(g: Model, innerMax: nat, p: nat)
    requires TreeOk(g.t, g.top) && p in g.t
    decreases g.t[0].ht - g.t[p].ht
  {
    assert NodeOk(g.t, g.top, p);
    p != 0 &&
    var r := g.t[p].parent;
    assert NodeOk(g.t, g.top, r);
    ListedByParent(g.t, g.top, r, p);
    |g.t[r].kids| > innerMax && (IndexIn(g.t[r].kids, p) == innerMax / 2 || Misplaces(g, innerMax, r))
  }

  // This depends on the nodes above alone.
  lemma {:induction false} MisplacesSame(g: Model, g': Model, innerMax: nat, a: nat)
    requires TreeOk(g.t, g.top) && TreeOk(g'.t, g'.top) && a in g.t && a in g'.t
    requires g'.t[a].parent == g.t[a].parent
    requires forall q | q in g.t && g.t[q].ht > g.t[a].ht :: q in g'.t && g'.t[q] == g.t[q]
    ensures Misplaces(g', innerMax, a) <==> Misplaces(g, innerMax, a)
    decreases g.t[0].ht - g.t[a].ht
  {
    assert NodeOk(g.t, g.top, a);
    if a != 0 {
      ListedByParent(g.t, g.top, g.t[a].parent, a);
      assert NodeOk(g.t, g.top, g.t[a].parent);
      MisplacesSame(g, g', innerMax, g.t[a].parent);
    }
  }

  // After node o split, what is above its parent r is as before.
  lemma MisplacesAfterSplit(g: Model, g': Model, o: nat, n: nat, m: Key, cut: nat, innerMax: nat)
    requires NodeSplit(g, g', o, n, m, cut)
    ensures TreeOk(g'.t, g'.top) && g.t[o].parent in g'.t
    ensures Misplaces(g', innerMax, g.t[o].parent) <==> Misplaces(g, innerMax, g.t[o].parent)
  {
    var r := g.t[o].parent;
    SplitOk(g.t, g.top, o, n, m, cut);
    ListedByParent(g.t, g.top, r, o);
    assert g'.t[r].parent == g.t[r].parent by {
      if r in Upper(g.t[o].kids, cut) { ListedByParent(g.t, g.top, o, r); }
    }
    forall q | q in g.t && g.t[q].ht > g.t[r].ht ensures q in g'.t && g'.t[q] == g.t[q] {
      if q in Upper(g.t[o].kids, cut) { ListedByParent(g.t, g.top, o, q); }
    }
    MisplacesSame(g, g', innerMax, r);
  }

  // The new node stands right behind its left half.
  lemma NewPosition(g: Model, g': Model, o: nat, n: nat, m: Key, cut: nat, i: nat)
    requires CanSplit(g.t, g.top, o, n, m, cut) && cut <= |g.t[o].kids|
    requires g.t[o].parent in g.t && o in g.t[g.t[o].parent].kids && g' == g.(t := Split(g.t, o, n, m, cut))
    requires g.t[o].parent in g'.t && i + 1 < |g'.t[g.t[o].parent].kids| && g'.t[g.t[o].parent].kids[i + 1] == n
    ensures i == IndexIn(g.t[g.t[o].parent].kids, o) && g'.t[g.t[o].parent].kids[i] == o
    ensures |g'.t[g.t[o].parent].kids| == |g.t[g.t[o].parent].kids| + 1
  {
    var r := g.t[o].parent;
    SplitParent(g, o, n, m, cut, IndexIn(g.t[r].kids, o));
    assert n !in g.t[r].kids by {
      if n in g.t[r].kids {
        ListedByParent(g.t, g.top, r, n);
      }
    }
  }

  // If the insertion split the parent at position pos of the new node, the copy is right exactly if the cut did not
  // fall between the old node and the new one, which are neighbours.
  lemma LateParentExact(c: Caps, t: Nodes, top: int, was: Node, o: nat, n: nat, pos: nat)
    requires TreeOk(t, top) && |was.kids| == c.innerMax + 2 && 0 < pos < |was.kids|
    requires SplitResult(was, t, o, n, Cut(c, pos)) && o != n
    ensures was.kids[pos - 1] in t && was.kids[pos] in t && was.kids[pos - 1] != 0 && was.kids[pos] != 0
    ensures t[was.kids[pos]].parent == t[was.kids[pos - 1]].parent <==> pos != c.innerMax / 2 + 1
  {
    var cut := Cut(c, pos);
    forall i | 0 <= i < |was.kids|
      ensures was.kids[i] in t && was.kids[i] != 0 && t[was.kids[i]].parent == if i < cut then o else n
    {
      if i < cut {
        assert t[o].kids[i] == was.kids[i];
        ListedByParent(t, top, o, was.kids[i]);
      } else {
        assert t[n].kids[i - cut] == was.kids[i];
        ListedByParent(t, top, n, was.kids[i]);
      }
    }
  }

  // ------------------------------------------------------------------
  // Pages with wrong parent pointers

  // The pages with the parents that the tree gives them.
  ghost function Repaired(s: seq<Page>, g: Model): (r: seq<Page>)
    ensures |r| == |s|
    ensures forall q {:trigger r[q]} | 0 <= q < |r| ::
              r[q] == if q in g.t && q != 0 then s[q].(parent := g.t[q].parent) else s[q]
  {
    seq(|s|, q requires 0 <= q < |s| => if q in g.t && q != 0 then s[q].(parent := g.t[q].parent) else s[q])
  }

  ghost predicate NamesParent(s: seq<Page>, g: Model, q: nat) {
    q in g.t && q < |s| && q != 0 ==> s[q].parent == g.t[q].parent
  }

  // The pages of nodes below height h name their parents; all pages do exactly if nothing went wrong.
  ghost predicate Strays(s: seq<Page>, g: Model, h: int, wrong: bool) {
    && (forall q: nat | q in g.t && g.t[q].ht < h :: NamesParent(s, g, q))
    && (wrong <==> exists q: nat :: !NamesParent(s, g, q))
  }

  lemma NoneStrays(c: Caps, s: seq<Page>, g: Model, h: int)
    requires TableOk(c, s, g)
    ensures Repaired(s, g) == s && Strays(s, g, h, false)
  {
    forall q: nat ensures NamesParent(s, g, q) && (q in g.t ==> q < |s|) {
      if q in g.t {
        assert PageOk(c, s, g, q);
      }
    }
  }

  // If no page strays, the table is valid; otherwise there is no table with these pages.
  lemma StraysDecide(c: Caps, s: seq<Page>, g: Model, h: int, wrong: bool)
    requires TableOk(c, Repaired(s, g), g) && Strays(s, g, h, wrong)
    ensures !wrong ==> TableOk(c, s, g)
    ensures wrong ==> forall g' :: !TableOk(c, s, g')
  {
    if wrong {
      var q: nat :| !NamesParent(s, g, q);
      forall g' ensures !TableOk(c, s, g') {
        WrongParent(c, s, g, g', q);
      }
    } else {
      AllNamed(s, g);
    }
  }

  lemma AllNamed(s: seq<Page>, g: Model)
    requires forall q: nat :: NamesParent(s, g, q)
    ensures Repaired(s, g) == s
  {
    forall q | 0 <= q < |s| ensures Repaired(s, g)[q] == s[q] {
      assert NamesParent(s, g, q);
    }
  }

  // A page that is listed below one page cannot name another one as its parent.
  lemma WrongParent(c: Caps, s: seq<Page>, g: Model, g': Model, q: nat)
    requires TableOk(c, Repaired(s, g), g) && !NamesParent(s, g, q)
    ensures !TableOk(c, s, g')
  {
    var s', r := Repaired(s, g), g.t[q].parent;
    if TableOk(c, s, g') {
      assert PageOk(c, s', g, q) && NodeOk(g.t, g.top, q);
      ListedByParent(g.t, g.top, r, q);
      assert PageOk(c, s', g, r);
      assert Children(s[r]) == Children(s'[r]) && q in Children(s[r]);
      ParentsExact(c, s, g', q, r);
    }
  }

  // ------------------------------------------------------------------
  // The split as written

  // The tree g of the pages s after the node at height h + 1 got its child, and what came of the parent pointers of
  // nodes at height k and above.
  ghost predicate Cascaded(c: Caps, s: seq<Page>, was: Model, g: Model, h: int, k: int, wrong: bool) {
    Settled(c, Repaired(s, g), was, g, h) && Strays(s, g, k, wrong)
  }

  // Lines 237 and 238 for the new node n, which belongs behind its left half o as child number pos of r.
  method InsertAndCopyParent(table: Table, r: nat, o: nat, n: nat, ghost h: nat, ghost pos: nat)
    requires Pending(table.caps, table.pages, table.g, r, n, pos) && table.g.t[r].kids[pos - 1] == o
    requires table.g.t[r].ht == h + 1
    requires |table.pages| + PagesToSettle(table.g, table.caps.innerMax, r) <= FILE_PAGES_NUM
    modifies table`pages, table`g
    ensures Cascaded(table.caps, table.pages, old(table.g), table.g, h, h,
                     CopyMisplaces(table.caps, old(table.g), r, pos))
    decreases table.g.t[0].ht - table.g.t[r].ht, 2
  {
    PendingInsertable(table.caps, table.pages, table.g, r, n, pos);
    if table.pages[r].count < table.caps.innerMax {
      PlaceAndCopyParent(table, r, o, n, h, pos);
    } else {
      SplitAboveAndCopyParent(table, r, o, n, h, pos);
    }
  }

  // The same where r is full.
  method SplitAboveAndCopyParent(table: Table, r: nat, o: nat, n: nat, ghost h: nat, ghost pos: nat)
    requires Pending(table.caps, table.pages, table.g, r, n, pos) && table.g.t[r].kids[pos - 1] == o
    requires table.g.t[r].ht == h + 1 && |table.g.t[r].kids| == table.caps.innerMax + 2
    requires |table.pages| + PagesToSettle(table.g, table.caps.innerMax, r) <= FILE_PAGES_NUM
    modifies table`pages, table`g
    ensures Cascaded(table.caps, table.pages, old(table.g), table.g, h, h,
                     CopyMisplaces(table.caps, old(table.g), r, pos))
    decreases table.g.t[0].ht - table.g.t[r].ht, 1
  {
    ghost var g0 := table.g;
    Neighbours(table.caps, table.pages, g0, r, n, pos);
    ghost var left, right := SplitInnerAndCopyParent(table, r, n, h, pos);
    HalvesCopied(table.caps, table.pages, g0, table.g, r, o, n, h, pos, left, right);
    table.pages := table.pages[n := table.pages[n].(parent := table.pages[o].parent)];
  }

  // Inserting a child at position pos of r and copying its parent afterwards leaves some node with a wrong parent.
  ghost predicate CopyMisplaces(c: Caps, g: Model, r: nat, pos: nat)
    requires TreeOk(g.t, g.top) && r in g.t
  {
    |g.t[r].kids| > c.innerMax + 1 && (pos == c.innerMax / 2 + 1 || Misplaces(g, c.innerMax, r))
  }

  // The same where r has room.
  method PlaceAndCopyParent(table: Table, r: nat, o: nat, n: nat, ghost h: nat, ghost pos: nat)
    requires Pending(table.caps, table.pages, table.g, r, n, pos) && table.g.t[r].kids[pos - 1] == o
    requires table.g.t[r].ht == h + 1 && table.pages[r].count < table.caps.innerMax
    modifies table`pages, table`g
    ensures Cascaded(table.caps, table.pages, old(table.g), table.g, h, h,
                     CopyMisplaces(table.caps, old(table.g), r, pos))
  {
    ghost var s0, g0 := table.pages, table.g;
    PendingInsertable(table.caps, s0, g0, r, n, pos);
    Neighbours(table.caps, s0, g0, r, n, pos);
    table.InternalNodeInsert(r, n, h, pos);
    PlacedLate(table.caps, s0, table.pages, g0, r, n, pos);
    table.pages := table.pages[n := table.pages[n].(parent := table.pages[o].parent)];
    assert !CopyMisplaces(table.caps, g0, r, pos);
    NoneStrays(table.caps, table.pages, g0, h);
  }

  // The old node and the new one, before the insertion.
  lemma Neighbours(c: Caps, s: seq<Page>, g: Model, r: nat, n: nat, pos: nat)
    requires Pending(c, s, g, r, n, pos)
    ensures var o := g.t[r].kids[pos - 1];
            && o in g.t && o != 0 && o < |s| && o != r && o != n && n != 0 && n < |s| && n != r
            && g.t[o].ht == g.t[n].ht == g.t[r].ht - 1 && s[o].parent == r
  {
    var o := g.t[r].kids[pos - 1];
    ListedByParent(g.t, g.top, r, o);
    ListedByParent(g.t, g.top, r, n);
    KidsDistinct(g.t, g.top, r);
    assert g.t[r].kids[pos - 1] != g.t[r].kids[pos];
    assert PageOk(c, s, g, o);
  }

  // With room, setting the parent afterwards is as good as setting it before.
  lemma PlacedLate(c: Caps, s: seq<Page>, s': seq<Page>, g: Model, r: nat, n: nat, pos: nat)
    requires Pending(c, s, g, r, n, pos) && |g.t[r].kids| <= c.innerMax + 1
    requires |s'| == |s| && s' == s[r := s'[r]] && Placed(c, g, s[r], s'[r], n, g.t[r].ht - 1, pos)
    ensures n < |s'| && TableOk(c, s'[n := s'[n].(parent := r)], g)
  {
    Neighbours(c, s, g, r, n, pos);
    PendingReparented(c, s, g, r, n, pos, r);
    var early, late := s[n := s[n].(parent := r)], s'[n := s'[n].(parent := r)];
    assert late == early[r := late[r]];
    PlacedSettles(c, early, late, g, r, n, pos);
  }

  // The old node and the new one, after a split of the page above.
  lemma HalvesSettled(c: Caps, s: seq<Page>, g0: Model, g: Model, r: nat, o: nat, n: nat, h: nat, pos: nat,
                      left: nat, right: nat)
    requires r in g0.t && |g0.t[r].kids| == c.innerMax + 2 && 0 < pos < |g0.t[r].kids|
    requires g0.t[r].kids[pos - 1] == o && g0.t[r].kids[pos] == n && o in g0.t && n in g0.t
    requires g0.t[o].ht == g0.t[n].ht == h && Settled(c, Repaired(s, g), g0, g, h)
    requires SplitResult(g0.t[r], g.t, left, right, Cut(c, pos)) && left != right
    ensures TwoNodes(s, g, o, n, h) && (g.t[n].parent != g.t[o].parent <==> pos == c.innerMax / 2 + 1)
  {
    LateParentExact(c, g.t, g.top, g0.t[r], left, right, pos);
    assert PageOk(c, Repaired(s, g), g, o) && PageOk(c, Repaired(s, g), g, n);
  }

  ghost predicate TwoNodes(s: seq<Page>, g: Model, o: nat, n: nat, h: nat) {
    o in g.t && n in g.t && g.t[o].ht == g.t[n].ht == h && o != 0 && n != 0 && o < |s| && n < |s|
  }

  // Line 238: the new node's page n names the parent that o's page names.
  lemma HalvesCopied(c: Caps, s: seq<Page>, g0: Model, g: Model, r: nat, o: nat, n: nat, h: nat, pos: nat,
                     left: nat, right: nat)
    requires TreeOk(g0.t, g0.top) && r in g0.t && |g0.t[r].kids| == c.innerMax + 2 && 0 < pos < |g0.t[r].kids|
    requires g0.t[r].kids[pos - 1] == o && g0.t[r].kids[pos] == n && o in g0.t && n in g0.t
    requires g0.t[o].ht == g0.t[n].ht == h
    requires Cascaded(c, s, g0, g, h, h + 1, Misplaces(g0, c.innerMax, r))
    requires SplitResult(g0.t[r], g.t, left, right, Cut(c, pos)) && left != right
    ensures n < |s| && o < |s|
    ensures Cascaded(c, s[n := s[n].(parent := s[o].parent)], g0, g, h, h, CopyMisplaces(c, g0, r, pos))
  {
    HalvesSettled(c, s, g0, g, r, o, n, h, pos, left, right);
    CopiedRepair(s, g, o, n, h);
    Copied(s, g, o, n, h, Misplaces(g0, c.innerMax, r));
  }

  lemma CopiedRepair(s: seq<Page>, g: Model, o: nat, n: nat, h: nat)
    requires TwoNodes(s, g, o, n, h)
    ensures Repaired(s[n := s[n].(parent := s[o].parent)], g) == Repaired(s, g)
  {
  }

  lemma Copied(s: seq<Page>, g: Model, o: nat, n: nat, h: nat, wrong: bool)
    requires Strays(s, g, h + 1, wrong) && TwoNodes(s, g, o, n, h)
    ensures Strays(s[n := s[n].(parent := s[o].parent)], g, h, g.t[n].parent != g.t[o].parent || wrong)
  {
    var s' := s[n := s[n].(parent := s[o].parent)];
    assert NamesParent(s, g, o) && NamesParent(s, g, n);
    assert NamesParent(s', g, n) <==> g.t[n].parent == g.t[o].parent;
    forall q: nat | q != n ensures NamesParent(s', g, q) <==> NamesParent(s, g, q) {
    }
  }

  // internal_node_split_and_insert with lines 237 and 238 as written at every level. Every page is in order, apart from
  // parent pointers, and they are, too, exactly if nothing above p misplaces a node.
  method SplitInnerAndCopyParent(table: Table, p: nat, child: nat, ghost h: nat, ghost pos: nat)
    returns (ghost left: nat, ghost right: nat)
    requires Pending(table.caps, table.pages, table.g, p, child, pos) && |table.g.t[p].kids| == table.caps.innerMax + 2
    requires table.g.t[p].ht == h + 1
    requires |table.pages| + PagesToSettle(table.g, table.caps.innerMax, p) <= FILE_PAGES_NUM
    modifies table`pages, table`g
    ensures Cascaded(table.caps, table.pages, old(table.g), table.g, h, h + 1,
                     Misplaces(old(table.g), table.caps.innerMax, p))
    ensures SplitResult(old(table.g.t[p]), table.g.t, left, right, Cut(table.caps, pos)) && left != right
    decreases table.g.t[0].ht - table.g.t[p].ht, 0
  {
    left, right := if p == 0 then |table.pages| + 1 else p, |table.pages|;
    if table.pages[p].isRoot {
      ghost var g0 := table.g;
      table.InternalNodeSplitAndInsert(p, child, pos);
      SettledCascade(table.caps, table.pages, g0, table.g, h);
      return;
    }
    var oldMax, childMax := Maxima(table, p, child, pos);
    var r, n;
    ghost var g1, m, j;
    r, n, g1, m, j := table.DivideInner(p, child, oldMax, childMax, h, pos);
    RaiseAndCopyParent(table, p, n, r, g1, m, h, Cut(table.caps, pos), j);
  }

  // Lines 237 and 238 after the division of node p.
  method RaiseAndCopyParent(table: Table, p: nat, n: nat, r: nat, ghost g1: Model, ghost m: Key, ghost h: nat,
                            ghost cut: nat, ghost j: nat)
    requires NodeSplit(table.g, g1, p, n, m, cut) && table.g.t[p].ht == h + 1 && p != 0 && r == table.g.t[p].parent
    requires Pending(table.caps, table.pages, g1, r, n, j + 1) && g1.t[r].ht == h + 2 && 0 in table.g.t
    requires g1.t[0].ht == table.g.t[0].ht && g1.t[r].ht <= g1.t[0].ht
    requires |table.pages| + PagesToSettle(g1, table.caps.innerMax, r) <= FILE_PAGES_NUM
    modifies table`pages, table`g
    ensures Cascaded(table.caps, table.pages, old(table.g), table.g, h, h + 1,
                     Misplaces(old(table.g), table.caps.innerMax, p))
    ensures SplitResult(old(table.g.t[p]), table.g.t, p, n, cut)
    decreases table.g.t[0].ht - (h + 2), 3
  {
    ghost var g0 := table.g;
    NewPosition(g0, g1, p, n, m, cut, j);
    table.g := g1;
    InsertAndCopyParent(table, r, p, n, h + 1, j + 1);
    RaisedCascade(table.caps, table.pages, g0, g1, table.g, p, n, m, h, cut, j);
  }

  lemma SettledCascade(c: Caps, s: seq<Page>, was: Model, g: Model, h: int)
    requires Settled(c, s, was, g, h)
    ensures Cascaded(c, s, was, g, h, h + 1, false)
  {
    NoneStrays(c, s, g, h + 1);
  }

  // What came of the insertion into the parent, as seen from the node split.
  lemma RaisedCascade(c: Caps, s: seq<Page>, g0: Model, g1: Model, g: Model, p: nat, n: nat, m: Key, h: nat, cut: nat,
                      j: nat)
    requires NodeSplit(g0, g1, p, n, m, cut) && g0.t[p].ht == h + 1 && p != 0
    requires TreeOk(g1.t, g1.top) && g0.t[p].parent in g1.t
    requires j + 1 < |g1.t[g0.t[p].parent].kids| && g1.t[g0.t[p].parent].kids[j + 1] == n
    requires Cascaded(c, s, g1, g, h + 1, h + 1, CopyMisplaces(c, g1, g0.t[p].parent, j + 1))
    ensures Cascaded(c, s, g0, g, h, h + 1, Misplaces(g0, c.innerMax, p))
    ensures SplitResult(g0.t[p], g.t, p, n, cut)
  {
    NewPosition(g0, g1, p, n, m, cut, j);
    MisplacesAfterSplit(g0, g1, p, n, m, cut, c.innerMax);
    SettledAbove(c, Repaired(s, g), g0, g1, g, p, n, m, cut);
  }

  // The two keys asked for at the beginning.
  method Maxima(table: Table, p: nat, child: nat, ghost pos: nat) returns (oldMax: Key, childMax: Key)
    requires Pending(table.caps, table.pages, table.g, p, child, pos)
    ensures Covers(table.g.t, p, oldMax)
    ensures table.pages[p].link in table.g.t && oldMax == MaxBelow(table.g.t, table.g.top, table.pages[p].link)
    ensures child in table.g.t && childMax == MaxBelow(table.g.t, table.g.top, child)
  {
    ghost var h := table.g.t[p].ht - 1;
    PendingSpine(table.caps, table.pages, table.g, p, child, pos);
    LackingCovers(table.caps, table.pages[p], table.g, p, pos);
    KidInTree(table.g, p, pos);
    assert SpinePage(table.pages, table.g, child);
    MaxBelowInRange(table.g.t, table.g.top, child);
    oldMax := table.GetNodeMaxKey(p, h);
    childMax := table.GetNodeMaxKey(child, h);
  }

  // ------------------------------------------------------------------
  // The insertion of a row

  // The insertion splits a leaf below a full node, and splitting that node leaves some new node with a wrong parent.
  ghost predicate InsertMisplaces(c: Caps, s: seq<Page>, g: Model, p: nat)
    requires TreeOk(g.t, g.top) && p in g.t && p < |s|
  {
    assert NodeOk(g.t, g.top, p);
    s[p].count >= c.leafMax && p != 0 &&
    |g.t[g.t[p].parent].kids| > c.innerMax && Misplaces(g, c.innerMax, g.t[p].parent)
  }

  // The insertion of a row, with lines 237 and 238 as written: the table is valid with the new row exactly if it
  // misplaces no node; otherwise there is no table with the pages it leaves.
  method LeafNodeInsertAndCopyParents(table: Table, cursor: Cursor, key: Key, row: Row)
    requires CanInsert(table.caps, table.pages, table.g, cursor.pageNum, cursor.cellNum, key)
    requires |table.pages| + PagesToInsert(table.caps, table.pages, table.g, cursor.pageNum) <= FILE_PAGES_NUM
    modifies table`pages, table`g
    ensures table.g.rows == old(table.g.rows)[key := row]
    ensures var wrong := InsertMisplaces(table.caps, old(table.pages), old(table.g), cursor.pageNum);
            && (!wrong ==> table.Valid())
            && (wrong ==> forall g :: !TableOk(table.caps, table.pages, g))
  {
    var p := cursor.pageNum;
    LeafParent(table.caps, table.pages, table.g, p);
    var r := table.pages[p].parent;
    if table.pages[p].count < table.caps.leafMax || table.pages[p].isRoot
       || table.pages[r].count < table.caps.innerMax {
      table.LeafNodeInsert(cursor, key, row);
    } else {
      var n;
      ghost var pos, m;
      n, pos, m := PendingLeaf(table, cursor, key, row, r);
      ghost var g1 := table.g;
      ghost var left, right := SplitInnerAndCopyParent(table, r, n, g1.t[r].ht - 1, pos);
      StraysDecide(table.caps, table.pages, table.g, g1.t[r].ht, Misplaces(g1, table.caps.innerMax, r));
    }
  }

  lemma LeafParent(c: Caps, s: seq<Page>, g: Model, p: nat)
    requires TableOk(c, s, g) && p in g.t && g.t[p].ht == 0
    ensures p < |s| && (s[p].isRoot <==> p == 0)
    ensures p != 0 ==>
              && s[p].parent == g.t[p].parent && s[p].parent in g.t && s[p].parent < |s| && p in g.t[s[p].parent].kids
              && (s[s[p].parent].count < c.innerMax <==> |g.t[s[p].parent].kids| <= c.innerMax)
              && |g.t[s[p].parent].kids| <= c.innerMax + 1
    ensures s[p].count <= c.leafMax
  {
    assert PageOk(c, s, g, p) && NodeOk(g.t, g.top, p);
    if p != 0 {
      var r := g.t[p].parent;
      ListedByParent(g.t, g.top, r, p);
      assert PageOk(c, s, g, r) && |Children(s[r])| == s[r].count + 1;
    }
  }

  // leaf_node_split_and_insert up to the insertion into the full parent.
  method PendingLeaf(table: Table, cursor: Cursor, key: Key, row: Row, r: nat)
    returns (n: nat, ghost pos: nat, ghost m: Key)
    requires CanInsert(table.caps, table.pages, table.g, cursor.pageNum, cursor.cellNum, key)
    requires table.pages[cursor.pageNum].count == table.caps.leafMax && cursor.pageNum != 0
    requires |table.pages| + PagesToInsert(table.caps, table.pages, table.g, cursor.pageNum) <= FILE_PAGES_NUM
    requires r == table.g.t[cursor.pageNum].parent && r in table.g.t && |table.g.t[r].kids| == table.caps.innerMax + 1
    modifies table`pages, table`g
    ensures Pending(table.caps, table.pages, table.g, r, n, pos) && |table.g.t[r].kids| == table.caps.innerMax + 2
    ensures table.pages[n].parent == r
    ensures |table.pages| + PagesToSettle(table.g, table.caps.innerMax, r) <= FILE_PAGES_NUM
    ensures r in old(table.g).t && TreeOk(old(table.g).t, old(table.g).top)
    ensures Misplaces(table.g, table.caps.innerMax, r) <==> Misplaces(old(table.g), table.caps.innerMax, r)
    ensures table.g.rows == old(table.g.rows)[key := row]
    ensures LeafParted(table.caps, old(table.pages), old(table.g), table.g, cursor.pageNum, n, cursor.cellNum,
                       Cell(key, row), m)
  {
    ghost var s0, g0, x := table.pages, table.g, Cell(key, row);
    var p, cell := cursor.pageNum, cursor.cellNum;
    assert PageOk(table.caps, s0, g0, p);
    var oldMax := table.GetNodeMaxKey(p, 0);
    assert oldMax == s0[p].cells[s0[p].count - 1].key;
    n := table.DivideLeaf(p, cell, key, row);
    m := LeafSplitReady(table.caps, s0, table.pages, g0, p, cell, x);
    LeafPartedIs(table.caps, s0, table.pages, g0, p, n, cell, x, m);
    var index := table.LowerLeafSeparator(r, p, n, oldMax, m, x, s0);
    ghost var g1 := LeafSplitModel(g0, p, n, m, x);
    pos := index + 1;
    assert Pending(table.caps, table.pages, g1, r, n, pos);
    ParentAbove(g0, p, n, m, x, table.caps.innerMax);
    table.g := g1;
  }

  // The tree after leaf p was split at key m, the last one of its left half with the new row.
  ghost predicate LeafParted(c: Caps, s: seq<Page>, g: Model, g': Model, p: nat, n: nat, cell: nat, x: Cell, m: Key) {
    && p < |s| && |s[p].cells| == c.leafMax && cell <= c.leafMax
    && p in g.t && g.t[p].ht == 0 && g.t[p].parent in g.t && p in g.t[g.t[p].parent].kids
    && m == InsertAt(s[p].cells, cell, x)[c.LeftSplit() - 1].key
    && CanSplit(g.t, WithRow(g, p, x.key, x.row).top, p, n, m, 0)
    && g' == LeafSplitModel(g, p, n, m, x)
  }

  lemma LeafPartedIs(c: Caps, s0: seq<Page>, s: seq<Page>, g: Model, p: nat, n: nat, cell: nat, x: Cell, m: Key)
    requires LeafRaisable(c, s0, s, g, p, x, m) && LeafDivided(c, s0, s, p, cell, x) && n == |s0|
    ensures LeafParted(c, s0, g, LeafSplitModel(g, p, n, m, x), p, n, cell, x, m)
  {
    assert s[p].cells[c.LeftSplit() - 1] == InsertAt(s0[p].cells, cell, x)[c.LeftSplit() - 1];
  }

  // Splitting a leaf gives its parent one more child and leaves the nodes above that alone.
  lemma ParentAbove(g: Model, p: nat, n: nat, m: Key, x: Cell, innerMax: nat)
    requires TreeOk(g.t, g.top) && p in g.t && g.t[p].ht == 0 && p != 0 && n !in g.t && g.t[p].parent in g.t
    requires p in g.t[g.t[p].parent].kids
    requires var g' := LeafSplitModel(g, p, n, m, x); TreeOk(g'.t, g'.top)
    ensures var r, g' := g.t[p].parent, LeafSplitModel(g, p, n, m, x);
            && r in g'.t && |g'.t[r].kids| == |g.t[r].kids| + 1
            && (Misplaces(g', innerMax, r) <==> Misplaces(g, innerMax, r))
  {
    var r, g' := g.t[p].parent, LeafSplitModel(g, p, n, m, x);
    assert NodeOk(g.t, g.top, r) && NodeOk(g.t, g.top, p);
    ListedByParent(g.t, g.top, r, p);
    assert g.t[p].kids == [];
    MisplacesSame(g, g', innerMax, r);
  }
}
