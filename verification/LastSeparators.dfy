/**
 Lines 155 to 162 of btree.cpp as they stand: for the largest key of an internal node the last separator is taken,
 without the right child. An insertion comes out right exactly if it splits no internal node.
 */
module LastSeparators {
  import opened BTreeShape
  import opened BTreePages
  import opened BTreeRoom
  import opened BTreeLeaves
  import opened BTreeTable
  import opened BareTree
  import opened LateParents

  // h bounds the height, so that the recursion ends on any page contents.
  function MaxKeyAsWritten(s: seq<Page>, q: nat, h: nat): int
    decreases h
  {
    if q >= |s| then 0
    else if s[q].nodeType == LEAF then
      if s[q].count == 0 || s[q].count > |s[q].cells| then 0 else s[q].cells[s[q].count - 1].key
    else if s[q].count == 0 then
      if h == 0 then 0 else MaxKeyAsWritten(s, s[q].link, h - 1)
    else if s[q].count > |s[q].slots| then 0 else s[q].slots[s[q].count - 1].key
  }

  // In a valid table it is the largest key of the subtree exactly for leaves.
  lemma MaxKeyExact(c: Caps, s: seq<Page>, g: Model, q: nat, h: nat)
    requires TableOk(c, s, g) && q < |s|
    ensures q in g.t
    ensures MaxKeyAsWritten(s, q, h) == MaxBelow(g.t, g.top, q) <==> s[q].nodeType == LEAF
  {
    assert PageOk(c, s, g, q) && NodeOk(g.t, g.top, q);
    if s[q].nodeType == INTERNAL {
      var n := s[q].count;
      assert n > 0 by { assert |Children(s[q])| == n + 1; }
      assert s[q].slots[n - 1].key == g.t[g.t[q].kids[n - 1]].hi;
      MaximaAscend(g.t, g.top, q, n - 1, n);
      KidsAscend(g.t, g.top, q, n - 1, n);
      MaxBelowInRange(g.t, g.top, q);
    }
  }

  // Consequence for create_new_root (line 373): with the last separator of the old root as the new root's separator,
  // every key stored below the old root's right child is looked for in the new right child instead.
  lemma NewRootMisleads(c: Caps, s: seq<Page>, g: Model, root: Page, key: Key, j: nat)
    requires TableOk(c, s, g) && 0 < |s| && s[0].nodeType == INTERNAL
    requires Sized(c, root) && root.count == 1 && root.slots[0].key == MaxKeyAsWritten(s, 0, 0)
    requires s[0].link in g.t && Covers(g.t, s[0].link, key) && FirstNotBelow(root, key, j)
    ensures j == 1
  {
    assert PageOk(c, s, g, 0) && NodeOk(g.t, g.top, 0);
    var n := s[0].count;
    assert |Children(s[0])| == n + 1 && Children(s[0])[n] == s[0].link;
    assert s[0].slots[n - 1].key == g.t[g.t[0].kids[n - 1]].hi;
    KidsAscend(g.t, g.top, 0, n - 1, n);
    assert root.slots[0].key < key;
  }

  // ------------------------------------------------------------------
  // A page that lists an internal page with that page's own last separator

  // It is what the cascade takes for the largest key.
  lemma LastKeyAsWritten(s: seq<Page>, q: nat, h: nat)
    requires q < |s| && HasKeys(s[q])
    ensures MaxKeyAsWritten(s, q, h) == LastKey(s[q])
  {
  }

  // No table has such a page.
  lemma MisnamedNoTable(c: Caps, s: seq<Page>, p: nat, j: nat, g: Model)
    requires Misnamed(s, p, j)
    ensures !TableOk(c, s, g)
  {
    if TableOk(c, s, g) {
      var q := s[p].slots[j].child;
      assert p in PageNumbers(|s|) && q in PageNumbers(|s|);
      assert PageOk(c, s, g, p) && PageOk(c, s, g, q);
      assert Children(s[p])[j] == q;
      var last := s[q].count;
      assert |Children(s[q])| == last + 1;
      KidsAscend(g.t, g.top, q, last - 1, last);
      KidRange(g.t, g.top, q, last);
    }
  }

  // ------------------------------------------------------------------
  // The insertion of a row

  // The insertion splits an internal node.
  ghost predicate SplitsInner(c: Caps, s: seq<Page>, g: Model, p: nat)
    requires TreeOk(g.t, g.top) && p in g.t && p < |s|
  {
    assert NodeOk(g.t, g.top, p);
    s[p].count >= c.leafMax && p != 0 && |g.t[g.t[p].parent].kids| > c.innerMax
  }

  // The insertion of a row, with lines 155 to 162 as written: the table is valid with the new row exactly if the
  // insertion splits no internal node. Then the largest keys asked for are those of leaves. With a split, there is no
  // table with the pages it leaves.
  method LeafNodeInsertLast(table: Table, cursor: Cursor, key: Key, row: Row)
    requires CanInsert(table.caps, table.pages, table.g, cursor.pageNum, cursor.cellNum, key)
    requires |table.pages| + PagesToInsert(table.caps, table.pages, table.g, cursor.pageNum) <= FILE_PAGES_NUM
    modifies table`pages, table`g
    ensures var splits := SplitsInner(table.caps, old(table.pages), old(table.g), cursor.pageNum);
            && (!splits ==> table.Valid() && table.g.rows == old(table.g.rows)[key := row])
            && (splits ==> forall g :: !TableOk(table.caps, table.pages, g))
  {
    var p := cursor.pageNum;
    LeafParent(table.caps, table.pages, table.g, p);
    var r := table.pages[p].parent;
    if table.pages[p].count < table.caps.leafMax || table.pages[p].isRoot
       || table.pages[r].count < table.caps.innerMax {
      table.LeafNodeInsert(cursor, key, row);
    } else {
      var n;
      ghost var pos, m;
      n, pos, m := PendingLeaf(table, cursor, key, row, r);
      SplitLast(table, r, n, pos);
    }
  }

  // internal_node_split_and_insert of a node that lacks its child number pos, to the end.
  method SplitLast(table: Table, p: nat, x: nat, ghost pos: nat)
    requires Pending(table.caps, table.pages, table.g, p, x, pos) && |table.g.t[p].kids| == table.caps.innerMax + 2
    requires table.pages[x].parent == p
    requires |table.pages| + PagesToSettle(table.g, table.caps.innerMax, p) <= FILE_PAGES_NUM
    modifies table`pages
    ensures forall g :: !TableOk(table.caps, table.pages, g)
  {
    PendingAllBut(table.caps, table.pages, table.g, p, x, pos);
    AllButGain(table.caps, table.pages, table.g, p, x, pos);
    AllButSplits(table.caps, table.pages, table.g, p, x, pos);
    ghost var o;
    o := SplitPage(table, p, x, LastSeparator, HeightsOf(table.g));
    forall g ensures !TableOk(table.caps, table.pages, g) {
      var d: nat :| SomeMisnamed(table.pages, d);
      var j: nat :| Misnamed(table.pages, d, j);
      MisnamedNoTable(table.caps, table.pages, d, j, g);
    }
  }
}
