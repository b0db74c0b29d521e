/**
 leaf_node_split_and_insert with line 428 as it stands: it takes the leaf's own page for its parent's. So a separator
 is written over the row of the leaf's first cell, and the parent keeps the old one.
 */
module LeafSplitAsWritten {
  import opened Bytes
  import opened Sequences
  import opened BTreeShape
  import opened BTreePages
  import opened BTreeRaising
  import opened BTreeRoom
  import opened BTreeLeaves
  import opened BTreeTable
  import opened BareTree

  // ------------------------------------------------------------------
  // The row of the first cell

  // The text with the bytes v written over it from position `at` on, as far as it reaches.
  function Overwritten(text: seq<Byte>, at: int, v: seq<Byte>): (r: seq<Byte>)
    ensures |r| == |text|
    ensures forall k | 0 <= k < |r| :: r[k] == if at <= k < at + |v| then v[k - at] else text[k]
  {
    seq(|text|, k requires 0 <= k < |text| => if at <= k < at + |v| then v[k - at] else text[k])
  }

  // A row after the key k was written where separator i of an internal node would lie: over the row's number,
  // or from byte 8 * i - 5 of its text on.
  function RowOverwritten(row: Row, i: nat, k: Key): Row {
    if i == 0 then row.(id := k) else row.(text := Overwritten(row.text, 8 * i - 5, Encode(k)))
  }

  // The row stays as it is exactly if the key is its number, or its text ends before or has the same bytes there.
  lemma RowKeptIff(row: Row, i: nat, k: Key)
    ensures RowOverwritten(row, i, k) == row <==>
            if i == 0 then row.id == k
            else forall b | 0 <= b < 4 && 8 * i - 5 + b < |row.text| :: row.text[8 * i - 5 + b] == Encode(k)[b]
  {
    if i > 0 {
      TextKeptIff(row.text, 8 * i - 5, Encode(k));
    }
  }

  lemma TextKeptIff(text: seq<Byte>, at: nat, v: seq<Byte>)
    ensures Overwritten(text, at, v) == text <==> forall b | 0 <= b < |v| && at + b < |text| :: text[at + b] == v[b]
  {
    var text' := Overwritten(text, at, v);
    if forall b | 0 <= b < |v| && at + b < |text| :: text[at + b] == v[b] {
      forall j | 0 <= j < |text| ensures text'[j] == text[j] {
        if at <= j < at + |v| {
          assert text[at + (j - at)] == v[j - at];
        }
      }
      assert text' == text;
    } else {
      var b :| 0 <= b < |v| && at + b < |text| && text[at + b] != v[b];
      assert text'[at + b] == v[b];
    }
  }

  // ------------------------------------------------------------------
  // A table with another row under one of its keys

  function Replaced(page: Page, row: Row): Page
    requires |page.cells| > 0
  {
    page.(cells := page.cells[0 := page.cells[0].(row := row)])
  }

  lemma ReplacedBody(c: Caps, page: Page, g: Model, p: nat, row: Row)
    requires BodyOk(c, page, g, p) && g.t[p].ht == 0 && page.count > 0
    ensures BodyOk(c, Replaced(page, row), g.(rows := g.rows[page.cells[0].key := row]), p)
  {
    ReplacedLeaf(c, page, g.t[p], g.top, p, row);
    ReplacedRows(page, g.t[p], g.rows, row);
  }

  lemma ReplacedLeaf(c: Caps, page: Page, n: Node, top: int, p: nat, row: Row)
    requires Sized(c, page) && LeafOk(c, page, n, top, p) && page.count > 0
    ensures Sized(c, Replaced(page, row)) && LeafOk(c, Replaced(page, row), n, top, p)
  {
    var page' := Replaced(page, row);
    assert forall i {:trigger page'.cells[i]} | 0 <= i < |page.cells| :: page'.cells[i].key == page.cells[i].key;
  }

  lemma ReplacedRows(page: Page, n: Node, rows: map<Key, Row>, row: Row)
    requires 0 < page.count <= |page.cells| && CellsAscend(page) && RowsOk(page, n, rows)
    ensures RowsOk(Replaced(page, row), n, rows[page.cells[0].key := row])
  {
    var page', rows' := Replaced(page, row), rows[page.cells[0].key := row];
    forall k {:trigger k in rows'} | k in rows' && n.lo < k <= n.hi
      ensures exists i :: 0 <= i < page'.count && page'.cells[i].key == k
    {
      var i :| 0 <= i < page.count && page.cells[i].key == k;
      assert page'.cells[i].key == k;
    }
  }

  lemma RowElsewhereReplaced(c: Caps, page: Page, g: Model, p: nat, key: Key, row: Row, q: nat)
    requires TreeOk(g.t, g.top) && Covers(g.t, p, key) && g.t[p].ht == 0 && key in g.rows
    requires BodyOk(c, page, g, q) && q != p
    ensures BodyOk(c, page, g.(rows := g.rows[key := row]), q)
  {
    if g.t[q].ht == 0 && Covers(g.t, q, key) {
      UniqueCover(g.t, g.top, p, q, key);
    }
  }

  lemma TableReplaced(c: Caps, s: seq<Page>, g: Model, p: nat, row: Row)
    requires TableOk(c, s, g) && p in g.t && g.t[p].ht == 0 && p < |s| && 0 < s[p].count <= |s[p].cells|
    ensures TableOk(c, s[p := Replaced(s[p], row)], g.(rows := g.rows[s[p].cells[0].key := row]))
  {
    var key, s' := s[p].cells[0].key, s[p := Replaced(s[p], row)];
    var g' := g.(rows := g.rows[key := row]);
    assert PageOk(c, s, g, p);
    ReplacedBody(c, s[p], g, p, row);
    forall q {:trigger PageOk(c, s', g', q)} | q in g'.t ensures PageOk(c, s', g', q) {
      assert PageOk(c, s, g, q);
      if q != p {
        RowElsewhereReplaced(c, s[q], g, p, key, row, q);
      }
    }
  }

  // The leaf and the new cell with the row overwritten beforehand, where it is going to be the first cell.
  function PageBefore(page: Page, cell: nat, row: Row): Page
    requires |page.cells| > 0
  {
    if cell == 0 then page else Replaced(page, row)
  }

  function CellBefore(x: Cell, cell: nat, row: Row): Cell {
    if cell == 0 then x.(row := row) else x
  }

  ghost function ModelBefore(g: Model, page: Page, cell: nat, row: Row): Model
    requires |page.cells| > 0
  {
    if cell == 0 then g else g.(rows := g.rows[page.cells[0].key := row])
  }

  lemma InsertableBefore(c: Caps, s: seq<Page>, g: Model, p: nat, cell: nat, x: Cell, row: Row)
    requires CanInsert(c, s, g, p, cell, x.key) && s[p].count == c.leafMax
    ensures |s[p].cells| == c.leafMax
    ensures CanInsert(c, s[p := PageBefore(s[p], cell, row)], ModelBefore(g, s[p], cell, row), p, cell, x.key)
  {
    assert PageOk(c, s, g, p);
    if cell == 0 {
      assert s[p := s[p]] == s;
    } else {
      TableReplaced(c, s, g, p, row);
      assert s[p].cells[0].key in g.rows;
    }
  }

  lemma LongerReplaced(cells: seq<Cell>, cell: nat, x: Cell, row: Row)
    requires 0 < |cells| && cell <= |cells|
    ensures var cells' := if cell == 0 then cells else cells[0 := cells[0].(row := row)];
            var all := InsertAt(cells, cell, x);
            InsertAt(cells', cell, CellBefore(x, cell, row)) == all[0 := all[0].(row := row)]
  {
  }

  // Overwriting the first row of the divided leaf is dividing with that row overwritten before.
  lemma DividedBefore(c: Caps, s0: seq<Page>, s: seq<Page>, p: nat, cell: nat, x: Cell, row: Row)
    requires LeafDivided(c, s0, s, p, cell, x)
    ensures |s0[p].cells| == |s[p].cells| == c.leafMax
    ensures LeafDivided(c, s0[p := PageBefore(s0[p], cell, row)], s[p := Replaced(s[p], row)], p, cell,
                        CellBefore(x, cell, row))
  {
    LongerReplaced(s0[p].cells, cell, x, row);
    var all := InsertAt(s0[p].cells, cell, x);
    var left := Replaced(s[p], row);
    assert forall i {:trigger left.cells[i]} | 0 <= i < c.LeftSplit() ::
        left.cells[i] == all[0 := all[0].(row := row)][i];
  }

  // The rows then are those meant, with the overwritten one in place of the first cell's.
  lemma RowsBefore(rows: map<Key, Row>, cells: seq<Cell>, cell: nat, x: Cell, row: Row)
    requires 0 < |cells| && cell <= |cells| && cells[0].key != x.key
    ensures (if cell == 0 then rows else rows[cells[0].key := row])[x.key := CellBefore(x, cell, row).row] ==
            rows[x.key := x.row][InsertAt(cells, cell, x)[0].key := row]
  {
  }

  // ------------------------------------------------------------------
  // The parent with the old separator

  // The model after the leaf's division, in which its parent gains the new leaf behind it.
  lemma DividedModel(c: Caps, s0: seq<Page>, s: seq<Page>, g: Model, p: nat, n: nat, m: Key, x: Cell, j: nat)
    requires LeafRaisable(c, s0, s, g, p, x, m) && n == |s0|
    requires j < |g.t[g.t[p].parent].kids| && g.t[g.t[p].parent].kids[j] == p
    ensures var g2, r := LeafSplitModel(g, p, n, m, x), g.t[p].parent;
            && r in g2.t && g2.t[r].ht == 1 && 2 <= |g.t[r].kids| <= c.innerMax + 1
            && g2.t[r].kids == InsertAt(g.t[r].kids, j + 1, n) && g2.t[r].parent == g.t[r].parent
            && Children(s[r]) == g.t[r].kids == RemoveAt(g2.t[r].kids, j + 1)
            && s[r].nodeType == INTERNAL && (s[r].isRoot <==> r == 0) && (r != 0 ==> s[r].parent == g.t[r].parent)
            && s[r].link != INVALID_PAGE_NUM && Sized(c, s[r])
            && forall i | 0 <= i < s[r].count ::
                 && g.t[r].kids[i] in g.t && g.t[r].kids[i] in g2.t && s[r].slots[i].key == g.t[g.t[r].kids[i]].hi
                 && g2.t[g.t[r].kids[i]].hi == if i == j then m else g.t[g.t[r].kids[i]].hi
  {
    var g1, r := WithRow(g, p, x.key, x.row), g.t[p].parent;
    ListedByParent(g.t, g.top, r, p);
    SplitParent(g1, p, n, m, 0, j);
    InsertedRemoved(g.t[r].kids, j + 1, n);
  }

  // The parent lacks the new leaf, and an old separator is not the divided leaf's last key.
  lemma StaleAllBut(c: Caps, s0: seq<Page>, s: seq<Page>, g: Model, p: nat, n: nat, m: Key, x: Cell, j: nat)
    requires LeafRaisable(c, s0, s, g, p, x, m) && n == |s0|
    requires j < |g.t[g.t[p].parent].kids| && g.t[g.t[p].parent].kids[j] == p
    ensures AllBut(c, s, LeafSplitModel(g, p, n, m, x), g.t[p].parent, n, j + 1) && s[n].parent == g.t[p].parent
    ensures LeafSplitModel(g, p, n, m, x).t[g.t[p].parent].ht == 1
    ensures j < s[g.t[p].parent].count ==>
              s[g.t[p].parent].slots[j] == Slot(p, g.t[p].hi) && m != g.t[p].hi && g.t[p].hi < INF
  {
    var g2, r := LeafSplitModel(g, p, n, m, x), g.t[p].parent;
    DividedModel(c, s0, s, g, p, n, m, x, j);
    assert Lists(c, s[r], g2, r, j + 1);
    if j < s[r].count {
      assert Children(s[r])[j] == p;
    }
  }

  // Where the old separator is not among those that last, that is all.
  lemma StalePending(c: Caps, s0: seq<Page>, s: seq<Page>, g: Model, p: nat, n: nat, m: Key, x: Cell, j: nat)
    requires LeafRaisable(c, s0, s, g, p, x, m) && n == |s0|
    requires j < |g.t[g.t[p].parent].kids| && g.t[g.t[p].parent].kids[j] == p
    requires Lasting(c, s[g.t[p].parent]) <= j
    ensures Pending(c, s, LeafSplitModel(g, p, n, m, x), g.t[p].parent, n, j + 1)
    ensures LeafSplitModel(g, p, n, m, x).t[g.t[p].parent].ht == 1
  {
    StaleExact(c, s0, s, g, p, n, m, x, j);
    ExactPending(c, s, LeafSplitModel(g, p, n, m, x), g.t[p].parent, n, j + 1);
  }

  // All is in order but for the missing child.
  ghost predicate ExactAllBut(c: Caps, s: seq<Page>, g: Model, r: nat, n: nat, pos: nat) {
    AllBut(c, s, g, r, n, pos) && ExactUpTo(s[r], g.t, Lasting(c, s[r]))
  }

  lemma ExactPending(c: Caps, s: seq<Page>, g: Model, r: nat, n: nat, pos: nat)
    requires ExactAllBut(c, s, g, r, n, pos)
    ensures Pending(c, s, g, r, n, pos)
  {
    AllButPending(c, s, g, r, n, pos);
  }

  lemma StaleExact(c: Caps, s0: seq<Page>, s: seq<Page>, g: Model, p: nat, n: nat, m: Key, x: Cell, j: nat)
    requires LeafRaisable(c, s0, s, g, p, x, m) && n == |s0|
    requires j < |g.t[g.t[p].parent].kids| && g.t[g.t[p].parent].kids[j] == p
    requires Lasting(c, s[g.t[p].parent]) <= j
    ensures ExactAllBut(c, s, LeafSplitModel(g, p, n, m, x), g.t[p].parent, n, j + 1)
    ensures LeafSplitModel(g, p, n, m, x).t[g.t[p].parent].ht == 1
  {
    StaleAllBut(c, s0, s, g, p, n, m, x, j);
    DividedModel(c, s0, s, g, p, n, m, x, j);
  }

  // A page's cells are rows of the table.
  lemma CellInTable(c: Caps, s: seq<Page>, g: Model, p: nat, i: nat)
    requires TableOk(c, s, g) && p < |s| && s[p].nodeType == LEAF && i < s[p].count <= |s[p].cells|
    ensures s[p].cells[i].key in g.rows && g.rows[s[p].cells[i].key] == s[p].cells[i].row
  {
    assert PageOk(c, s, g, p);
  }

  // ------------------------------------------------------------------
  // The whole operation

  // Leaf p is child number j of its parent, and the cell x belongs to it, which is full.
  ghost predicate Splits(c: Caps, s: seq<Page>, g: Model, p: nat, cell: nat, x: Cell, j: nat) {
    && CanInsert(c, s, g, p, cell, x.key) && p != 0 && s[p].count == c.leafMax == |s[p].cells| && cell <= c.leafMax
    && |s| + PagesToInsert(c, s, g, p) <= BTreePages.FILE_PAGES_NUM
    && s[p].parent < |s| && s[s[p].parent].count <= |s[s[p].parent].slots|
    && j < |Children(s[s[p].parent])| && Children(s[s[p].parent])[j] == p
  }

  // The row that line 430 leaves in the leaf's first cell, where the search in the leaf's bytes ended at i.
  function RowLeft(c: Caps, s: seq<Page>, p: nat, cell: nat, x: Cell, i: nat): Row
    requires p < |s| && |s[p].cells| == c.leafMax && cell <= c.leafMax
  {
    var all := InsertAt(s[p].cells, cell, x);
    RowOverwritten(all[0].row, i, all[c.LeftSplit() - 1].key)
  }

  // The first row stays as it is, and the separator that is now too large does not last: the leaf is the right child,
  // or its parent is full and the leaf not in the lower half.
  ghost predicate ComesOutRight(c: Caps, s: seq<Page>, p: nat, cell: nat, x: Cell, i: nat, j: nat)
    requires p < |s| && |s[p].cells| == c.leafMax && cell <= c.leafMax && s[p].parent < |s|
  {
    RowLeft(c, s, p, cell, x, i) == InsertAt(s[p].cells, cell, x)[0].row && Lasting(c, s[s[p].parent]) <= j
  }

  // There is a valid table of these rows with these pages.
  ghost predicate CanBeTable(c: Caps, s: seq<Page>, rows: map<Key, Row>) {
    exists g :: TableOk(c, s, g) && g.rows == rows
  }

  lemma SplitPosition(c: Caps, s: seq<Page>, g: Model, p: nat, cell: nat, x: Cell, j: nat)
    requires Splits(c, s, g, p, cell, x, j)
    ensures var r := s[p].parent; r == g.t[p].parent && r in g.t && j < |g.t[r].kids| && g.t[r].kids[j] == p && r != p
    ensures |s| < BTreePages.FILE_PAGES_NUM
  {
    assert PageOk(c, s, g, p) && NodeOk(g.t, g.top, p);
    ListedByParent(g.t, g.top, g.t[p].parent, p);
    assert PageOk(c, s, g, g.t[p].parent);
  }

  // What is known once the leaf is divided and its first row overwritten.
  lemma ReadyToRaise(c: Caps, s0: seq<Page>, s: seq<Page>, g: Model, p: nat, cell: nat, x: Cell, j: nat, row: Row)
    returns (s0': seq<Page>, g': Model, x': Cell, m: Key)
    requires Splits(c, s0, g, p, cell, x, j) && LeafDivided(c, s0, s, p, cell, x)
    ensures |s[p].cells| > 0 && |s0'| == |s0|
    ensures LeafRaisable(c, s0', s[p := Replaced(s[p], row)], g', p, x', m) && m == s[p].cells[c.LeftSplit() - 1].key
    ensures g'.t == g.t
    ensures g'.rows[x'.key := x'.row] == g.rows[x.key := x.row][InsertAt(s0[p].cells, cell, x)[0].key := row]
  {
    SplitPosition(c, s0, g, p, cell, x, j);
    s0' := s0[p := PageBefore(s0[p], cell, row)];
    g' := ModelBefore(g, s0[p], cell, row);
    x' := CellBefore(x, cell, row);
    InsertableBefore(c, s0, g, p, cell, x, row);
    DividedBefore(c, s0, s, p, cell, x, row);
    FirstIsOther(c, s0, g, p, cell, x);
    RowsBefore(g.rows, s0[p].cells, cell, x, row);
    SameRoom(c, s0, s0', g, g', p);
    m := LeafSplitReady(c, s0', s[p := Replaced(s[p], row)], g', p, cell, x');
  }

  // How many pages an insertion takes depends on the tree and on whether the leaf is full.
  lemma SameRoom(c: Caps, s: seq<Page>, s': seq<Page>, g: Model, g': Model, p: nat)
    requires TreeOk(g.t, g.top) && g'.t == g.t && g'.top == g.top && p in g.t && g.t[p].ht == 0
    requires p < |s| && p < |s'| && s'[p].count == s[p].count
    ensures PagesToInsert(c, s', g', p) == PagesToInsert(c, s, g, p)
  {
    assert NodeOk(g.t, g.top, p);
    if p != 0 {
      ListedByParent(g.t, g.top, g.t[p].parent, p);
      GainAbove(g, g', c.innerMax, g.t[p].parent, 0);
    }
  }

  lemma FirstIsOther(c: Caps, s: seq<Page>, g: Model, p: nat, cell: nat, x: Cell)
    requires CanInsert(c, s, g, p, cell, x.key) && s[p].count == c.leafMax == |s[p].cells|
    ensures s[p].cells[0].key != x.key
  {
    assert PageOk(c, s, g, p);
  }

  // Two tables with these pages have the same rows in leaf p.
  lemma RowDecides(c: Caps, s: seq<Page>, g: Model, g': Model, p: nat, key: Key)
    requires TableOk(c, s, g) && TableOk(c, s, g')
    requires p in g.t && g.t[p].ht == 0 && Covers(g.t, p, key) && key in g.rows
    ensures key in g'.rows && g'.rows[key] == g.rows[key]
  {
    assert PageOk(c, s, g, p);
    var i := RowInLeaf(s[p], g.t[p], g.rows, key);
    CellInTable(c, s, g', p, i);
  }

  // The first row's key is the leaf's and the table's.
  lemma FirstInRange(c: Caps, s: seq<Page>, g: Model, p: nat, cell: nat, x: Cell)
    requires CanInsert(c, s, g, p, cell, x.key) && p != 0
    requires s[p].count == c.leafMax == |s[p].cells| && cell <= c.leafMax
    ensures var all := InsertAt(s[p].cells, cell, x);
            && g.t[p].lo < all[0].key <= all[c.LeftSplit() - 1].key
            && all[0].key in g.rows[x.key := x.row] && g.rows[x.key := x.row][all[0].key] == all[0].row
  {
    assert PageOk(c, s, g, p);
    LongerLeaf(c, s[p], g, p, cell, x);
    var all := InsertAt(s[p].cells, cell, x);
    LongerRows(s[p], g.t[p], g.rows, cell, x);
    assert all[0].key in g.rows[x.key := x.row];
  }

  lemma LowerLeaf(g: Model, p: nat, n: nat, m: Key, x: Cell, g': Model)
    requires p in g.t && g.t[p].parent in g.t && p in g.t[g.t[p].parent].kids && n !in g.t && g.t[p].ht == 0
    requires SameUpTo(LeafSplitModel(g, p, n, m, x).t, g'.t, 0)
    ensures p in g'.t && g'.t[p].ht == 0 && g'.t[p].lo == g.t[p].lo && g'.t[p].hi == m
  {
    var t' := LeafSplitModel(g, p, n, m, x).t;
    assert t'[p].ht == 0;
  }

  // With all in order, the first row decides.
  lemma RowOutcome(c: Caps, s: seq<Page>, g: Model, p: nat, rows: map<Key, Row>, key: Key, row: Row)
    requires TableOk(c, s, g)
    requires p in g.t && g.t[p].ht == 0 && Covers(g.t, p, key) && key in rows && g.rows == rows[key := row]
    ensures row == rows[key] <==> CanBeTable(c, s, rows)
    ensures row == rows[key] ==> g.rows == rows
  {
    if row == rows[key] {
      assert g.rows == rows;
    }
    if CanBeTable(c, s, rows) {
      var g' :| TableOk(c, s, g') && g'.rows == rows;
      RowDecides(c, s, g, g', p, key);
    }
  }

  // Line 430 with the leaf's page in place of its parent's; the search in the leaf's bytes ended at i.
  method DivideAndOverwrite(table: Table, p: nat, cell: nat, key: Key, row: Row, i: nat, ghost j: nat)
    returns (n: nat, ghost s: seq<Page>)
    requires Splits(table.caps, table.pages, table.g, p, cell, Cell(key, row), j)
    modifies table`pages
    ensures n == |old(table.pages)|
    ensures LeafDivided(table.caps, old(table.pages), s, p, cell, Cell(key, row)) && |s[p].cells| > 0
    ensures table.pages == s[p := Replaced(s[p], RowLeft(table.caps, old(table.pages), p, cell, Cell(key, row), i))]
  {
    SplitPosition(table.caps, table.pages, table.g, p, cell, Cell(key, row), j);
    assert PageOk(table.caps, table.pages, table.g, p);
    n := table.DivideLeaf(p, cell, key, row);
    s := table.pages;
    var newMax := table.GetNodeMaxKey(p, 0);
    var first := table.pages[p].cells[0].row;
    table.pages := table.pages[p := Replaced(table.pages[p], RowOverwritten(first, i, newMax))];
  }

  // internal_node_insert on a parent whose separators left from before do no harm.
  method InsertBehind(table: Table, r: nat, p: nat, n: nat, ghost j: nat,
                      ghost s0: seq<Page>, ghost g: Model, ghost x: Cell, ghost m: Key)
    requires LeafRaisable(table.caps, s0, table.pages, g, p, x, m) && n == |s0| && r == g.t[p].parent
    requires j < |g.t[r].kids| && g.t[r].kids[j] == p && r < |table.pages| && Lasting(table.caps, table.pages[r]) <= j
    requires table.g == LeafSplitModel(g, p, n, m, x)
    modifies table`pages, table`g
    ensures table.Valid() && table.g.rows == old(table.g.rows) && |table.pages| >= |old(table.pages)| > n
    ensures p in table.g.t && table.g.t[p].ht == 0 && table.g.t[p].lo == g.t[p].lo && table.g.t[p].hi == m
  {
    StalePending(table.caps, s0, table.pages, g, p, n, m, x, j);
    table.InsertAndSettle(r, n, 0, j + 1);
    LowerLeaf(g, p, n, m, x, table.g);
  }

  // internal_node_insert on a parent whose old separator lasts, and the splits above. The page that has the separator
  // then belongs to no table.
  method InsertBesideStale(table: Table, r: nat, p: nat, n: nat, ghost j: nat,
                           ghost s0: seq<Page>, ghost g: Model, ghost x: Cell, ghost m: Key)
    requires LeafRaisable(table.caps, s0, table.pages, g, p, x, m) && n == |s0| && r == g.t[p].parent
    requires j < |g.t[r].kids| && g.t[r].kids[j] == p && r < |table.pages| && j < Lasting(table.caps, table.pages[r])
    modifies table`pages
    ensures forall g :: !TableOk(table.caps, table.pages, g)
  {
    ghost var s1, g2 := table.pages, LeafSplitModel(g, p, n, m, x);
    StaleAllBut(table.caps, s0, s1, g, p, n, m, x, j);
    AllButGain(table.caps, s1, g2, r, n, j + 1);
    StaleSlot(table.caps, s0, s1, g, p, n, m, x);
    ghost var o;
    o := InsertChild(table, r, n, Modelled, HeightsOf(g2));
    WrongKeyStays(table.caps, s1, table.pages, HeightsOf(g2), r, o, j, 0, m);
    WrongKeyNoTable(table.caps, table.pages, o, s1[r].slots[j], 0, m);
  }

  lemma StaleSlot(c: Caps, s0: seq<Page>, s: seq<Page>, g: Model, p: nat, n: nat, m: Key, x: Cell)
    requires LeafRaisable(c, s0, s, g, p, x, m) && n == |s0|
    ensures LastBelow(s, p, 0, m) && At(HeightsOf(LeafSplitModel(g, p, n, m, x)), 0, p)
  {
  }

  // leaf_node_split_and_insert as written on a leaf other than the root, with all splits above. It comes out right
  // exactly if the condition holds; otherwise there is no table of the rows with the pages it leaves, and no table at
  // all where the old separator lasts.
  method SplitAndInsert(table: Table, cursor: Cursor, key: Key, row: Row, i: nat, j: nat)
    requires Splits(table.caps, table.pages, table.g, cursor.pageNum, cursor.cellNum, Cell(key, row), j)
    modifies table`pages, table`g
    ensures var p, s, x, rows := cursor.pageNum, old(table.pages), Cell(key, row), old(table.g.rows)[key := row];
            && (ComesOutRight(table.caps, s, p, cursor.cellNum, x, i, j) <==>
                CanBeTable(table.caps, table.pages, rows))
            && (ComesOutRight(table.caps, s, p, cursor.cellNum, x, i, j) ==> table.Valid() && table.g.rows == rows)
            && (j < Lasting(table.caps, s[s[p].parent]) ==> forall g :: !TableOk(table.caps, table.pages, g))
  {
    var p, cell := cursor.pageNum, cursor.cellNum;
    ghost var s0, g0, x := table.pages, table.g, Cell(key, row);
    SplitPosition(table.caps, s0, g0, p, cell, x, j);
    var n;
    ghost var s;
    n, s := DivideAndOverwrite(table, p, cell, key, row, i, j);
    ghost var left := RowLeft(table.caps, s0, p, cell, x, i);
    ghost var s0', g1, x', m := ReadyToRaise(table.caps, s0, s, g0, p, cell, x, j, left);
    table.g := LeafSplitModel(g1, p, n, m, x');
    var r := table.pages[p].parent;
    if Lasting(table.caps, table.pages[r]) <= j {
      InsertBehind(table, r, p, n, j, s0', g1, x', m);
      FirstInRange(table.caps, s0, g0, p, cell, x);
      ghost var first := InsertAt(s0[p].cells, cell, x)[0].key;
      RowOutcome(table.caps, table.pages, table.g, p, g0.rows[key := row], first, left);
    } else {
      InsertBesideStale(table, r, p, n, j, s0', g1, x', m);
    }
  }
}
