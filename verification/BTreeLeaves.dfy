/** Value-level lemmas about putting a row into a leaf, and about splitting a full leaf. */
module BTreeLeaves {
  import opened Sequences
  import opened BTreeShape
  import opened BTreePages
  import opened BTreeSplitting
  import opened BTreeRaising
  import opened BTreeRoom

  // Cell `ans` of a leaf is the first whose key is not below the key.
  ghost predicate LowerBound(page: Page, key: Key, ans: nat)
    requires page.count <= |page.cells|
  {
    && ans <= page.count
    && (forall i | 0 <= i < ans :: page.cells[i].key < key)
    && (forall i | ans <= i < page.count :: key <= page.cells[i].key)
  }

  // The model with one more row, whose key belongs to leaf p.
  ghost function WithRow(g: Model, p: nat, key: Key, row: Row): Model
    requires p in g.t
  {
    g.(top := if g.t[p].hi == INF && g.top < key then key else g.top, rows := g.rows[key := row])
  }

  // A place for a new row: leaf p covers the key, which the table does not hold yet.
  ghost predicate CanInsert(c: Caps, s: seq<Page>, g: Model, p: nat, cell: nat, key: Key) {
    && TableOk(c, s, g)
    && Covers(g.t, p, key) && g.t[p].ht == 0 && key !in g.rows
    && p < |s| && s[p].count <= |s[p].cells| && LowerBound(s[p], key, cell)
  }

  lemma TreeOkHigher(t: Nodes, top: int, top': int)
    requires TreeOk(t, top) && top <= top' < INF
    ensures TreeOk(t, top')
  {
    forall q {:trigger NodeOk(t, top', q)} | q in t ensures NodeOk(t, top', q) {
      assert NodeOk(t, top, q);
    }
  }

  // A page other than leaf p is as good for the model with the new row.
  lemma RowElsewhere(c: Caps, page: Page, g: Model, p: nat, key: Key, row: Row, q: nat)
    requires TreeOk(g.t, g.top) && Covers(g.t, p, key) && g.t[p].ht == 0
    requires BodyOk(c, page, g, q) && q != p
    ensures BodyOk(c, page, WithRow(g, p, key, row), q)
  {
    assert NodeOk(g.t, g.top, p) && NodeOk(g.t, g.top, q);
    if g.t[q].ht == 0 {
      if g.t[q].hi == INF == g.t[p].hi {
        UniqueCover(g.t, g.top, p, q, INF);
      }
      if Covers(g.t, q, key) {
        UniqueCover(g.t, g.top, p, q, key);
      }
    }
  }

  lemma AbsentCell(c: Caps, page: Page, g: Model, p: nat, key: Key, cell: nat)
    requires BodyOk(c, page, g, p) && g.t[p].ht == 0 && key !in g.rows
    requires LowerBound(page, key, cell)
    ensures forall i | cell <= i < page.count :: key < page.cells[i].key
  {
  }

  // ------------------------------------------------------------------
  // A leaf with room

  // The cells of a page are those of another with cell x put in.
  ghost predicate CellPut(page: Page, page': Page, cell: nat, x: Cell) {
    && cell <= page.count < |page'.cells| && page.count <= |page.cells|
    && page'.count == page.count + 1
    && forall i {:trigger page'.cells[i]} | 0 <= i <= page.count ::
         page'.cells[i] == if i < cell then page.cells[i] else if i == cell then x else page.cells[i - 1]
  }

  lemma PutAscends(page: Page, page': Page, cell: nat, x: Cell)
    requires CellPut(page, page', cell, x) && CellsAscend(page) && LowerBound(page, x.key, cell)
    requires forall i | cell <= i < page.count :: x.key < page.cells[i].key
    ensures CellsAscend(page')
  {
  }

  lemma PutRows(page: Page, page': Page, cell: nat, x: Cell, n: Node, rows: map<Key, Row>)
    requires CellPut(page, page', cell, x) && RowsOk(page, n, rows) && x.key !in rows
    ensures RowsOk(page', n, rows[x.key := x.row])
  {
    forall k {:trigger k in rows} | k in rows[x.key := x.row] && n.lo < k <= n.hi
      ensures exists i :: 0 <= i < page'.count && page'.cells[i].key == k
    {
      if k == x.key {
        assert page'.cells[cell].key == k;
      } else {
        var i :| 0 <= i < page.count && page.cells[i].key == k;
        assert page'.cells[if i < cell then i else i + 1].key == k;
      }
    }
  }

  lemma PutLeaf(c: Caps, page: Page, page': Page, n: Node, top: int, top': int, q: nat, cell: nat, x: Cell)
    requires Sized(c, page) && LeafOk(c, page, n, top, q) && page.count < c.leafMax && CellPut(page, page', cell, x)
    requires page' == page.(count := page.count + 1, cells := page'.cells) && Sized(c, page')
    requires CellsAscend(page') && n.lo < x.key <= n.hi && LowerBound(page, x.key, cell)
    requires forall i | cell <= i < page.count :: x.key < page.cells[i].key
    requires n.hi <= INF && 0 <= top && top' == if n.hi == INF && top < x.key then x.key else top
    ensures LeafOk(c, page', n, top', q)
  {
    forall i | 0 <= i < page'.count ensures n.lo < page'.cells[i].key <= n.hi {
      assert i != cell ==> page'.cells[i] == page.cells[if i < cell then i else i - 1];
    }
    assert page.count > 0 ==> page.cells[page.count - 1].key == if n.hi < INF then n.hi else top;
  }

  lemma RowPlaced(c: Caps, page: Page, page': Page, g: Model, p: nat, cell: nat, key: Key, row: Row)
    requires TreeOk(g.t, g.top) && Covers(g.t, p, key) && g.t[p].ht == 0 && key !in g.rows
    requires BodyOk(c, page, g, p) && page.count < c.leafMax && LowerBound(page, key, cell)
    requires page' == page.(count := page.count + 1, cells := page'.cells) && Sized(c, page')
    requires CellPut(page, page', cell, Cell(key, row))
    ensures BodyOk(c, page', WithRow(g, p, key, row), p)
  {
    var g' := WithRow(g, p, key, row);
    assert NodeOk(g.t, g.top, p);
    AbsentCell(c, page, g, p, key, cell);
    PutAscends(page, page', cell, Cell(key, row));
    PutRows(page, page', cell, Cell(key, row), g.t[p], g.rows);
    PutLeaf(c, page, page', g.t[p], g.top, g'.top, p, cell, Cell(key, row));
  }

  lemma RowInserted(c: Caps, s: seq<Page>, s': seq<Page>, g: Model, p: nat, cell: nat, key: Key, row: Row)
    requires CanInsert(c, s, g, p, cell, key) && s[p].count < c.leafMax
    requires |s'| == |s| && s' == s[p := s'[p]]
    requires s'[p] == s[p].(count := s[p].count + 1, cells := s'[p].cells) && Sized(c, s'[p])
    requires CellPut(s[p], s'[p], cell, Cell(key, row))
    ensures TableOk(c, s', WithRow(g, p, key, row))
  {
    var g' := WithRow(g, p, key, row);
    assert PageOk(c, s, g, p);
    TreeOkHigher(g.t, g.top, g'.top);
    RowPlaced(c, s[p], s'[p], g, p, cell, key, row);
    forall q {:trigger PageOk(c, s', g', q)} | q in g'.t ensures PageOk(c, s', g', q) {
      if q != p {
        assert PageOk(c, s, g, q);
        RowElsewhere(c, s[q], g, p, key, row, q);
      }
    }
  }

  // ------------------------------------------------------------------
  // A full leaf

  // The cells of the full page with the new one, cut at LeftSplit: the rest is in the new page.
  ghost predicate Redistributed(c: Caps, was: Page, left: Page, right: Page, n: nat, cell: nat, x: Cell) {
    && Sized(c, was) && cell <= c.leafMax
    && Sized(c, left) && Sized(c, right)
    && left == was.(count := c.LeftSplit(), link := n, cells := left.cells)
    && right.nodeType == LEAF && !right.isRoot && right.count == c.RightSplit() && right.link == was.link
    && (forall i {:trigger left.cells[i]} | 0 <= i < c.LeftSplit() ::
          left.cells[i] == InsertAt(was.cells, cell, x)[i])
    && (forall i {:trigger right.cells[i]} | 0 <= i < c.RightSplit() ::
          right.cells[i] == InsertAt(was.cells, cell, x)[c.LeftSplit() + i])
  }

  // The backward loop over the longer sequence `all` has stored all positions above i: those from LeftSplit on in the
  // new page, the others in the old page, whose cells up to i are still as they were.
  ghost predicate Redistributing(c: Caps, was: seq<Cell>, all: seq<Cell>, left: seq<Cell>, right: seq<Cell>, i: int) {
    && |was| == |left| == |right| == c.leafMax && |all| == c.leafMax + 1
    && -1 <= i <= c.leafMax
    && (forall j | 0 <= j < c.leafMax && (j <= i || c.LeftSplit() <= j) :: left[j] == was[j])
    && (forall j | 0 <= j < c.LeftSplit() && i < j :: left[j] == all[j])
    && (forall j {:trigger right[j]} | 0 <= j < c.RightSplit() && i < c.LeftSplit() + j ::
          right[j] == all[c.LeftSplit() + j])
  }

  // One pass of the loop: the source cell has not been overwritten yet, and the remainder is the slot.
  lemma RedistributeStep(c: Caps, was: seq<Cell>, cell: nat, x: Cell, left: seq<Cell>, right: seq<Cell>, i: nat)
    requires cell <= |was| && Redistributing(c, was, InsertAt(was, cell, x), left, right, i)
    ensures i % c.LeftSplit() == (if i < c.LeftSplit() then i else i - c.LeftSplit()) < c.leafMax
    ensures var y := if i == cell then x else if i > cell then left[i - 1] else left[i];
            && y == InsertAt(was, cell, x)[i]
            && if i >= c.LeftSplit()
               then Redistributing(c, was, InsertAt(was, cell, x), left, right[i - c.LeftSplit() := y], i - 1)
               else Redistributing(c, was, InsertAt(was, cell, x), left[i := y], right, i - 1)
  {
    Remainder(i, c.LeftSplit(), c.RightSplit());
  }

  // Both halves are short enough for the remainder to be the slot within the half.
  lemma Remainder(i: nat, left: nat, right: nat)
    requires 0 < left && right <= left && i < left + right
    ensures i % left == if i < left then i else i - left
  {
  }

  // Node p is a full leaf other than the root, and a row with key x.key belongs to it at position cell.
  ghost predicate FullLeaf(c: Caps, was: Page, g: Model, p: nat, cell: nat, x: Cell) {
    && TreeOk(g.t, g.top) && Covers(g.t, p, x.key) && p != 0 && g.t[p].ht == 0 && x.key !in g.rows
    && BodyOk(c, was, g, p) && was.count == c.leafMax && LowerBound(was, x.key, cell)
  }

  // The row sequence of the full leaf with the new row: ascending, in range, ending at the range's end.
  lemma LongerLeaf(c: Caps, was: Page, g: Model, p: nat, cell: nat, x: Cell)
    requires FullLeaf(c, was, g, p, cell, x)
    ensures cell <= |was.cells| == c.leafMax
    ensures var all, g' := InsertAt(was.cells, cell, x), WithRow(g, p, x.key, x.row);
            && (forall i, j | 0 <= i < j < |all| :: all[i].key < all[j].key)
            && (forall i | 0 <= i < |all| :: g.t[p].lo < all[i].key <= g.t[p].hi)
            && all[c.leafMax].key == MaxBelow(g.t, g'.top, p)
            && TreeOk(g.t, g'.top)
  {
    var g' := WithRow(g, p, x.key, x.row);
    assert NodeOk(g.t, g.top, p);
    TreeOkHigher(g.t, g.top, g'.top);
    AbsentCell(c, was, g, p, x.key, cell);
    LongerAscends(was.cells, cell, x, g.t[p].lo, g.t[p].hi);
    assert was.cells[c.leafMax - 1].key == MaxBelow(g.t, g.top, p);
  }

  lemma LongerAscends(cells: seq<Cell>, cell: nat, x: Cell, lo: int, hi: int)
    requires cell <= |cells| && forall i, j | 0 <= i < j < |cells| :: cells[i].key < cells[j].key
    requires forall i | 0 <= i < |cells| :: if i < cell then cells[i].key < x.key else x.key < cells[i].key
    requires lo < x.key <= hi && forall i | 0 <= i < |cells| :: lo < cells[i].key <= hi
    ensures var all := InsertAt(cells, cell, x);
            && (forall i, j | 0 <= i < j < |all| :: all[i].key < all[j].key)
            && (forall i | 0 <= i < |all| :: lo < all[i].key <= hi)
  {
  }

  // A cell sequence holds exactly the rows of a range.
  ghost predicate AllRows(all: seq<Cell>, n: Node, rows: map<Key, Row>) {
    && (forall i | 0 <= i < |all| :: all[i].key in rows && rows[all[i].key] == all[i].row)
    && (forall k {:trigger k in rows} | k in rows && n.lo < k <= n.hi ::
          exists i :: 0 <= i < |all| && all[i].key == k)
  }

  lemma LongerRows(was: Page, n: Node, rows: map<Key, Row>, cell: nat, x: Cell)
    requires cell <= was.count == |was.cells| && RowsOk(was, n, rows) && x.key !in rows
    ensures AllRows(InsertAt(was.cells, cell, x), n, rows[x.key := x.row])
  {
    var all, rows' := InsertAt(was.cells, cell, x), rows[x.key := x.row];
    forall i | 0 <= i < |all| ensures all[i].key in rows' && rows'[all[i].key] == all[i].row {
      assert i != cell ==> all[i] == was.cells[if i < cell then i else i - 1];
    }
    forall k {:trigger k in rows'} | k in rows' && n.lo < k <= n.hi
      ensures exists i :: 0 <= i < |all| && all[i].key == k
    {
      if k == x.key {
        assert all[cell].key == k;
      } else {
        var i :| 0 <= i < was.count && was.cells[i].key == k;
        assert all[if i < cell then i else i + 1].key == k;
      }
    }
  }

  // The new row's key divides the longer leaf: both parts in terms of the range.
  lemma LeafHalves(c: Caps, was: Page, left: Page, right: Page, g: Model, p: nat, n: nat, cell: nat, x: Cell)
    requires FullLeaf(c, was, g, p, cell, x) && n !in g.t && n != INVALID_PAGE_NUM
    requires Redistributed(c, was, left, right, n, cell, x)
    ensures var m, g1 := left.cells[c.LeftSplit() - 1].key, WithRow(g, p, x.key, x.row);
            && CanSplit(g.t, g1.top, p, n, m, 0)
            && g.t[p].parent in g.t && p in g.t[g.t[p].parent].kids
            && BodyOk(c, left, g1.(t := Split(g.t, p, n, m, 0)), p)
            && BodyOk(c, right, g1.(t := Split(g.t, p, n, m, 0)), n)
  {
    var m := left.cells[c.LeftSplit() - 1].key;
    LeafCanSplit(c, was, g, p, n, cell, x);
    SplitLeafNodes(c, was, g, p, n, m);
    LeafHalvesCells(c, was, left, right, g, p, n, cell, x);
    LeafHalvesRows(c, was, left, right, g, p, n, cell, x);
  }

  lemma LeafHalvesCells(c: Caps, was: Page, left: Page, right: Page, g: Model, p: nat, n: nat, cell: nat, x: Cell)
    requires FullLeaf(c, was, g, p, cell, x) && Redistributed(c, was, left, right, n, cell, x)
    ensures var m, top := left.cells[c.LeftSplit() - 1].key, WithRow(g, p, x.key, x.row).top;
            m < g.t[p].hi && LeafOk(c, left, g.t[p].(hi := m), top, p) && LeafOk(c, right, g.t[p].(lo := m), top, n)
  {
    var m, top := left.cells[c.LeftSplit() - 1].key, WithRow(g, p, x.key, x.row).top;
    var all := InsertAt(was.cells, cell, x);
    LongerLeaf(c, was, g, p, cell, x);
    assert NodeOk(g.t, top, p);
    assert m == all[c.LeftSplit() - 1].key < all[c.leafMax].key;
    HalvesLeaf(c, left, right, all, g.t[p], m, top, p, n);
  }

  lemma LeafHalvesRows(c: Caps, was: Page, left: Page, right: Page, g: Model, p: nat, n: nat, cell: nat, x: Cell)
    requires FullLeaf(c, was, g, p, cell, x) && Redistributed(c, was, left, right, n, cell, x)
    ensures var m, rows := left.cells[c.LeftSplit() - 1].key, WithRow(g, p, x.key, x.row).rows;
            RowsOk(left, g.t[p].(hi := m), rows) && RowsOk(right, g.t[p].(lo := m), rows)
  {
    LongerLeaf(c, was, g, p, cell, x);
    var m, all := left.cells[c.LeftSplit() - 1].key, InsertAt(was.cells, cell, x);
    assert m == all[c.LeftSplit() - 1].key;
    HalvesRows(c, was, left, right, all, g.t[p], g.rows, cell, x, m);
  }

  // The key in the middle of the longer leaf divides its range.
  lemma LeafCanSplit(c: Caps, was: Page, g: Model, p: nat, n: nat, cell: nat, x: Cell)
    requires FullLeaf(c, was, g, p, cell, x) && n !in g.t && n != INVALID_PAGE_NUM
    ensures cell <= |was.cells| == c.leafMax
    ensures var all, g1 := InsertAt(was.cells, cell, x), WithRow(g, p, x.key, x.row);
            CanSplit(g.t, g1.top, p, n, all[c.LeftSplit() - 1].key, 0)
  {
    var all, g1 := InsertAt(was.cells, cell, x), WithRow(g, p, x.key, x.row);
    LongerLeaf(c, was, g, p, cell, x);
    assert NodeOk(g.t, g1.top, p) && NodeOk(g.t, g1.top, 0);
    assert all[c.LeftSplit() - 1].key < all[c.leafMax].key;
  }

  lemma HalvesLeaf(c: Caps, left: Page, right: Page, all: seq<Cell>, n: Node, m: Key, top: int, p: nat, q: nat)
    requires Sized(c, left) && left.nodeType == LEAF && left.count == c.LeftSplit()
    requires Sized(c, right) && right.nodeType == LEAF && right.count == c.RightSplit()
    requires |all| == c.leafMax + 1 && m == all[c.LeftSplit() - 1].key < n.hi
    requires forall i {:trigger left.cells[i]} | 0 <= i < c.LeftSplit() :: left.cells[i] == all[i]
    requires forall i {:trigger right.cells[i]} | 0 <= i < c.RightSplit() :: right.cells[i] == all[c.LeftSplit() + i]
    requires forall i, j | 0 <= i < j < |all| :: all[i].key < all[j].key
    requires forall i | 0 <= i < |all| :: n.lo < all[i].key <= n.hi
    requires n.hi <= INF && all[c.leafMax].key == if n.hi < INF then n.hi else top
    ensures LeafOk(c, left, n.(hi := m), top, p) && LeafOk(c, right, n.(lo := m), top, q)
  {
    PartLeaf(c, left, all, 0, n.(hi := m), top, p);
    PartLeaf(c, right, all, c.LeftSplit(), n.(lo := m), top, q);
  }

  lemma HalvesRows(c: Caps, was: Page, left: Page, right: Page, all: seq<Cell>, n: Node, rows: map<Key, Row>,
                   cell: nat, x: Cell, m: Key)
    requires cell <= was.count == |was.cells| == c.leafMax && RowsOk(was, n, rows) && x.key !in rows
    requires Sized(c, left) && Sized(c, right) && left.count == c.LeftSplit() && right.count == c.RightSplit()
    requires all == InsertAt(was.cells, cell, x)
    requires forall i {:trigger left.cells[i]} | 0 <= i < c.LeftSplit() :: left.cells[i] == all[i]
    requires forall i {:trigger right.cells[i]} | 0 <= i < c.RightSplit() :: right.cells[i] == all[c.LeftSplit() + i]
    requires forall i, j | 0 <= i < j <= c.leafMax :: all[i].key < all[j].key
    requires m == all[c.LeftSplit() - 1].key && n.lo < m < n.hi
    ensures RowsOk(left, n.(hi := m), rows[x.key := x.row])
    ensures RowsOk(right, n.(lo := m), rows[x.key := x.row])
  {
    LongerRows(was, n, rows, cell, x);
    PartRows(left, all, 0, n, n.(hi := m), rows[x.key := x.row]);
    PartRows(right, all, c.LeftSplit(), n, n.(lo := m), rows[x.key := x.row]);
  }

  // The two nodes of a split leaf; the new one inherits the link to the next leaf.
  lemma SplitLeafNodes(c: Caps, was: Page, g: Model, p: nat, n: nat, m: Key)
    requires TreeOk(g.t, g.top) && p in g.t && p != 0 && g.t[p].ht == 0 && BodyOk(c, was, g, p) && n !in g.t
    requires g.t[p].lo < m < g.t[p].hi
    ensures g.t[p].parent in g.t && p in g.t[g.t[p].parent].kids && n != 0
    ensures var t' := Split(g.t, p, n, m, 0);
            && t'[p] == g.t[p].(hi := m)
            && t'[n] == g.t[p].(lo := m)
            && if g.t[p].hi == INF then was.link == 0
               else was.link in t' && t'[was.link].ht == 0 && t'[was.link].lo == g.t[p].hi
  {
    assert NodeOk(g.t, g.top, p) && NodeOk(g.t, g.top, 0);
    assert Lower(g.t[p].kids, 0) == Upper(g.t[p].kids, 0) == g.t[p].kids;
    ListedByParent(g.t, g.top, g.t[p].parent, p);
  }

  // A stretch of the cell sequence holds exactly the rows of its part of the range.
  lemma PartRows(page: Page, all: seq<Cell>, from: nat, n: Node, n': Node, rows: map<Key, Row>)
    requires page.count <= |page.cells| && from + page.count <= |all| && AllRows(all, n, rows)
    requires forall i {:trigger page.cells[i]} | 0 <= i < page.count :: page.cells[i] == all[from + i]
    requires n.lo <= n'.lo && n'.hi <= n.hi
    requires forall i | 0 <= i < |all| && n'.lo < all[i].key <= n'.hi :: from <= i < from + page.count
    ensures RowsOk(page, n', rows)
  {
    forall k {:trigger k in rows} | k in rows && n'.lo < k <= n'.hi
      ensures exists i :: 0 <= i < page.count && page.cells[i].key == k
    {
      var i :| 0 <= i < |all| && all[i].key == k;
      assert page.cells[i - from].key == k;
    }
  }

  lemma PartLeaf(c: Caps, page: Page, all: seq<Cell>, from: nat, n: Node, top: int, q: nat)
    requires Sized(c, page) && page.nodeType == LEAF && 0 < page.count <= c.leafMax && c.RightSplit() <= page.count
    requires from + page.count <= |all|
    requires forall i {:trigger page.cells[i]} | 0 <= i < page.count :: page.cells[i] == all[from + i]
    requires forall i, j | 0 <= i < j < |all| :: all[i].key < all[j].key
    requires forall i | from <= i < from + page.count :: n.lo < all[i].key <= n.hi
    requires all[from + page.count - 1].key == if n.hi < INF then n.hi else top
    ensures LeafOk(c, page, n, top, q)
  {
    assert page.cells[page.count - 1] == all[from + page.count - 1];
  }

  // ------------------------------------------------------------------
  // The store after a leaf other than the root was split

  ghost predicate LeafDivided(c: Caps, s0: seq<Page>, s: seq<Page>, p: nat, cell: nat, x: Cell) {
    var n := |s0|;
    && p < n && |s| == n + 1
    && Redistributed(c, s0[p], s[p], s[n], n, cell, x)
    && s[n].parent == s0[p].parent
    && forall q | 0 <= q < n && q != p :: s[q] == s0[q]
  }

  ghost function LeafSplitModel(g: Model, p: nat, n: nat, m: Key, x: Cell): Model
    requires p in g.t && g.t[p].parent in g.t && p in g.t[g.t[p].parent].kids
  {
    WithRow(g, p, x.key, x.row).(t := Split(g.t, p, n, m, 0))
  }

  lemma LeafFan(t: Nodes, innerMax: nat, p: nat, n: nat, m: Key)
    requires p in t && t[p].ht == 0 && t[p].parent in t && p in t[t[p].parent].kids && n !in t
    requires FanOk(t, innerMax, -1)
    ensures FanExcept(Split(t, p, n, m, 0), innerMax, t[p].parent, t[p].parent)
  {
  }

  lemma LeafSplitOther(c: Caps, page: Page, g: Model, p: nat, n: nat, m: Key, x: Cell, q: nat)
    requires TreeOk(g.t, g.top) && Covers(g.t, p, x.key) && g.t[p].ht == 0
    requires g.t[p].parent in g.t && p in g.t[g.t[p].parent].kids
    requires CanSplit(g.t, WithRow(g, p, x.key, x.row).top, p, n, m, 0)
    requires q != p && q != g.t[p].parent && BodyOk(c, page, g, q)
    ensures BodyOk(c, page, LeafSplitModel(g, p, n, m, x), q)
    ensures q != 0 ==> LeafSplitModel(g, p, n, m, x).t[q].parent == g.t[q].parent
  {
    assert NodeOk(g.t, g.top, p);
    RowElsewhere(c, page, g, p, x.key, x.row, q);
    BodyKept(c, page, WithRow(g, p, x.key, x.row), p, n, m, 0, q);
  }

  lemma LeafSplitTree(c: Caps, s0: seq<Page>, s: seq<Page>, g: Model, p: nat, cell: nat, x: Cell) returns (m: Key)
    requires CanInsert(c, s0, g, p, cell, x.key) && p != 0 && s0[p].count == c.leafMax && |s0| < FILE_PAGES_NUM
    requires LeafDivided(c, s0, s, p, cell, x)
    ensures m == s[p].cells[c.LeftSplit() - 1].key
    ensures g.t[p].parent in g.t && p in g.t[g.t[p].parent].kids && |s0| !in g.t
    ensures g.t[p].parent != p && g.t[g.t[p].parent].ht == 1
    ensures CanSplit(g.t, WithRow(g, p, x.key, x.row).top, p, |s0|, m, 0)
    ensures var g2, r := LeafSplitModel(g, p, |s0|, m, x), g.t[p].parent;
            && TreeOk(g2.t, g2.top) && FanExcept(g2.t, c.innerMax, r, r)
            && BodyOk(c, s[p], g2, p) && BodyOk(c, s[|s0|], g2, |s0|)
  {
    m := s[p].cells[c.LeftSplit() - 1].key;
    var n, r := |s0|, g.t[p].parent;
    assert PageOk(c, s0, g, p) && NodeOk(g.t, g.top, p);
    LeafHalves(c, s0[p], s[p], s[n], g, p, n, cell, x);
    SplitOk(g.t, WithRow(g, p, x.key, x.row).top, p, n, m, 0);
    LeafFan(g.t, c.innerMax, p, n, m);
    ListedByParent(g.t, g.top, r, p);
  }

  lemma LeafAlmost(c: Caps, s0: seq<Page>, s: seq<Page>, g: Model, p: nat, cell: nat, x: Cell, m: Key)
    requires CanInsert(c, s0, g, p, cell, x.key) && |s0| < FILE_PAGES_NUM
    requires LeafDivided(c, s0, s, p, cell, x)
    requires g.t[p].parent in g.t && p in g.t[g.t[p].parent].kids && |s0| !in g.t && g.t[p].parent != p
    requires CanSplit(g.t, WithRow(g, p, x.key, x.row).top, p, |s0|, m, 0)
    requires var g2, r := LeafSplitModel(g, p, |s0|, m, x), g.t[p].parent;
             && TreeOk(g2.t, g2.top) && FanExcept(g2.t, c.innerMax, r, r)
             && BodyOk(c, s[p], g2, p) && BodyOk(c, s[|s0|], g2, |s0|)
    ensures AlmostSplit(c, s, LeafSplitModel(g, p, |s0|, m, x), g.t[p].parent, |s0|)
    ensures PageOk(c, s, WithRow(g, p, x.key, x.row), g.t[p].parent)
  {
    var n, r := |s0|, g.t[p].parent;
    var g2 := LeafSplitModel(g, p, n, m, x);
    assert PageOk(c, s0, g, r) && PageOk(c, s0, g, p);
    RowElsewhere(c, s0[r], g, p, x.key, x.row, r);
    assert g2.t.Keys == PageNumbers(n + 1);
    AlmostPages(c, s0, s, g, p, n, m, x);
  }

  lemma AlmostPages(c: Caps, s0: seq<Page>, s: seq<Page>, g: Model, p: nat, n: nat, m: Key, x: Cell)
    requires TreeOk(g.t, g.top) && StoreOk(c, s0, g) && Covers(g.t, p, x.key) && g.t[p].ht == 0 && n !in g.t
    requires g.t[p].parent in g.t && p in g.t[g.t[p].parent].kids
    requires CanSplit(g.t, WithRow(g, p, x.key, x.row).top, p, n, m, 0)
    requires p < n == |s0| && |s| == n + 1 && s[p].parent == s0[p].parent
    requires forall q | 0 <= q < n && q != p :: s[q] == s0[q]
    requires BodyOk(c, s[p], LeafSplitModel(g, p, n, m, x), p)
    ensures var g2, r := LeafSplitModel(g, p, n, m, x), g.t[p].parent;
            forall q {:trigger PageOk(c, s, g2, q)} | q in g2.t && q != r && q != n :: PageOk(c, s, g2, q)
  {
    var g2, r := LeafSplitModel(g, p, n, m, x), g.t[p].parent;
    forall q {:trigger PageOk(c, s, g2, q)} | q in g2.t && q != r && q != n ensures PageOk(c, s, g2, q) {
      assert PageOk(c, s0, g, q);
      if q != p {
        OtherPage(c, s0, s, g, p, n, m, x, q);
      }
    }
  }

  lemma OtherPage(c: Caps, s0: seq<Page>, s: seq<Page>, g: Model, p: nat, n: nat, m: Key, x: Cell, q: nat)
    requires TreeOk(g.t, g.top) && Covers(g.t, p, x.key) && g.t[p].ht == 0 && PageOk(c, s0, g, q)
    requires g.t[p].parent in g.t && p in g.t[g.t[p].parent].kids && n !in g.t
    requires CanSplit(g.t, WithRow(g, p, x.key, x.row).top, p, n, m, 0)
    requires q != p && q != g.t[p].parent && q < |s| && s[q] == s0[q]
    ensures PageOk(c, s, LeafSplitModel(g, p, n, m, x), q)
  {
    LeafSplitOther(c, s0[q], g, p, n, m, x, q);
  }

  // The parent, whose separator for the split leaf was lowered, lacks the new leaf.
  lemma LeafRaised(c: Caps, s: seq<Page>, s': seq<Page>, g: Model, p: nat, n: nat, m: Key, x: Cell, key: Key, j: nat)
    requires TreeOk(g.t, g.top) && FanOk(g.t, c.innerMax, -1) && p in g.t && g.t[p].ht == 0
    requires g.t[p].parent in g.t && p in g.t[g.t[p].parent].kids && n !in g.t
    requires CanSplit(g.t, WithRow(g, p, x.key, x.row).top, p, n, m, 0)
    requires AlmostSplit(c, s, LeafSplitModel(g, p, n, m, x), g.t[p].parent, n)
    requires PageOk(c, s, WithRow(g, p, x.key, x.row), g.t[p].parent)
    requires Covers(g.t, p, key) && n < |s| && s[n].parent == g.t[p].parent
    requires Sized(c, s[g.t[p].parent]) && s[g.t[p].parent].count <= c.innerMax
    requires FirstNotBelow(s[g.t[p].parent], key, j)
    requires var r := g.t[p].parent;
             |s'| == |s| && s' == s[r := s'[r]]
             && s'[r] == s[r].(slots := s[r].slots[j := s[r].slots[j].(key := m)])
    ensures Pending(c, s', LeafSplitModel(g, p, n, m, x), g.t[p].parent, n, j + 1)
    ensures LeafSplitModel(g, p, n, m, x).t[g.t[p].parent].ht == 1
  {
    var r, g1 := g.t[p].parent, WithRow(g, p, x.key, x.row);
    ListedByParent(g.t, g.top, r, p);
    FindsKid(c, s[r], g1, r, IndexIn(g.t[r].kids, p), key, j);
    SeparatorSet(c, s[r], s'[r], g1, p, n, m, 0, j);
    assert NodeOk(g.t, g.top, 0);
    RaisePending(c, s, s', LeafSplitModel(g, p, n, m, x), r, n, j + 1);
  }

  // ------------------------------------------------------------------
  // The store after the root leaf was split

  lemma OnlyLeaf(g: Model)
    requires TreeOk(g.t, g.top) && g.t[0].ht == 0
    ensures g.t.Keys == {0}
  {
    forall q | q in g.t ensures q == 0 {
      assert NodeOk(g.t, g.top, q);
    }
  }

  // The root leaf seen from its new page.
  lemma MovedLeaf(c: Caps, page: Page, g: Model, l: nat)
    requires TreeOk(g.t, g.top) && g.t[0].ht == 0 && l !in g.t && BodyOk(c, page, g, 0) && page.count == c.leafMax
    ensures TreeOk(Grow(g.t, l), g.top)
    ensures BodyOk(c, page.(isRoot := false), g.(t := Grow(g.t, l)), l)
    ensures Grow(g.t, l)[l] == g.t[0].(parent := 0)
  {
    GrowOk(g.t, g.top, l);
    assert NodeOk(g.t, g.top, 0);
  }

  // The root leaf grown to page 2 and split at m into pages 2 and 1.
  ghost function RootSplitModel(g: Model, m: Key, x: Cell): Model
    requires 0 in g.t
  {
    var g1 := GrownWithRow(g, x);
    g1.(t := Split(g1.t, 2, 1, m, 0))
  }

  ghost function GrownWithRow(g: Model, x: Cell): (g1: Model)
    requires 0 in g.t
    ensures 0 in g1.t && 2 in g1.t && g1.t[2].parent == 0 && g1.t[0].kids == [2]
    ensures g1.rows == g.rows[x.key := x.row]
  {
    WithRow(g.(t := Grow(g.t, 2)), 2, x.key, x.row)
  }

  lemma RootSplitTree(g: Model, m: Key, x: Cell)
    requires TreeOk(g.t, g.top) && g.t.Keys == {0} && g.t[0].ht == 0
    requires CanSplit(GrownWithRow(g, x).t, GrownWithRow(g, x).top, 2, 1, m, 0)
    ensures var g2 := RootSplitModel(g, m, x);
            && TreeOk(g2.t, g2.top) && g2.t.Keys == {0, 1, 2}
            && g2.t[2].parent == 0 && g2.t[2].ht == 0 && g2.t[1].ht == 0
  {
    var g1 := GrownWithRow(g, x);
    SplitOk(g1.t, g1.top, 2, 1, m, 0);
  }

  // The halves of the root leaf, for the tree with the root grown and split.
  lemma RootHalves(c: Caps, was: Page, left: Page, right: Page, g: Model, cell: nat, x: Cell)
    requires TreeOk(g.t, g.top) && g.t.Keys == {0} && g.t[0].ht == 0 && Covers(g.t, 0, x.key) && x.key !in g.rows
    requires BodyOk(c, was, g, 0) && was.count == c.leafMax && LowerBound(was, x.key, cell)
    requires Redistributed(c, was, left, right, 1, cell, x)
    ensures var m, g1 := left.cells[c.LeftSplit() - 1].key, GrownWithRow(g, x);
            && CanSplit(g1.t, g1.top, 2, 1, m, 0)
            && BodyOk(c, left.(isRoot := false), RootSplitModel(g, m, x), 2)
            && BodyOk(c, right, RootSplitModel(g, m, x), 1)
  {
    MovedFull(c, was, g, cell, x);
    RedistributedMoved(c, was, left, right, 1, cell, x);
    LeafHalves(c, was.(isRoot := false), left.(isRoot := false), right, g.(t := Grow(g.t, 2)), 2, 1, cell, x);
  }

  lemma MovedFull(c: Caps, was: Page, g: Model, cell: nat, x: Cell)
    requires TreeOk(g.t, g.top) && g.t.Keys == {0} && g.t[0].ht == 0 && Covers(g.t, 0, x.key) && x.key !in g.rows
    requires BodyOk(c, was, g, 0) && was.count == c.leafMax && LowerBound(was, x.key, cell)
    ensures var g' := g.(t := Grow(g.t, 2));
            1 !in g'.t && 2 in g'.t && g'.t[2].parent == 0 && FullLeaf(c, was.(isRoot := false), g', 2, cell, x)
  {
    MovedLeaf(c, was, g, 2);
  }

  lemma RedistributedMoved(c: Caps, was: Page, left: Page, right: Page, n: nat, cell: nat, x: Cell)
    requires Redistributed(c, was, left, right, n, cell, x)
    ensures Redistributed(c, was.(isRoot := false), left.(isRoot := false), right, n, cell, x)
  {
  }

  lemma LeafRooted(c: Caps, s0: seq<Page>, s: seq<Page>, s': seq<Page>, g: Model, cell: nat, x: Cell)
    returns (g2: Model)
    requires CanInsert(c, s0, g, 0, cell, x.key) && s0[0].count == c.leafMax && |s0| + 2 <= FILE_PAGES_NUM
    requires LeafDivided(c, s0, s, 0, cell, x) && NewRootOverLeaf(c, s, s', |s0|)
    ensures g2.rows == g.rows[x.key := x.row] && TableOk(c, s', g2)
  {
    OnlyLeaf(g);
    OnePage(|s0|);
    assert PageOk(c, s0, g, 0);
    var m := s[0].cells[c.LeftSplit() - 1].key;
    g2 := RootSplitModel(g, m, x);
    RootHalves(c, s0[0], s[0], s[1], g, cell, x);
    RootSplitTree(g, m, x);
    RootedAlmost(c, s[0].(isRoot := false), s[1], s', g2, 2, 1);
    RootPage(c, s'[0], GrownWithRow(g, x), 2, 1, m, 0);
    RaiseRoot(c, s', s', g2, 1);
  }

  lemma OnePage(n: nat)
    requires PageNumbers(n) == {0}
    ensures n == 1
  {
    assert n - 1 >= 0 ==> (n - 1) as nat in PageNumbers(n);
    assert 0 in PageNumbers(n);
  }

  lemma RootedAlmost(c: Caps, left: Page, right: Page, s: seq<Page>, g: Model, l: nat, n: nat)
    requires TreeOk(g.t, g.top) && n == 1 && l == 2 && |s| == 3 && g.t.Keys == {0, 1, 2}
    requires BodyOk(c, left, g, l) && s[l] == left.(parent := 0) && g.t[l].parent == 0
    requires BodyOk(c, right, g, n) && s[n] == right.(parent := 0)
    requires g.t[l].ht == 0 && g.t[n].ht == 0
    ensures AlmostSplit(c, s, g, 0, n)
  {
    ReparentedBody(c, left, g, l, 0);
    ReparentedBody(c, right, g, n, 0);
    ThreePages(|s|);
    TwoLeaves(c, s, g, l, n);
  }

  // A root page over two leaves that are as the tree says.
  lemma TwoLeaves(c: Caps, s: seq<Page>, g: Model, l: nat, n: nat)
    requires TreeOk(g.t, g.top) && n == 1 && l == 2 && |s| == 3 && g.t.Keys == {0, 1, 2} == PageNumbers(|s|)
    requires BodyOk(c, s[l], g, l) && s[l].parent == g.t[l].parent && BodyOk(c, s[n], g, n)
    requires g.t[l].ht == 0 && g.t[n].ht == 0
    ensures AlmostSplit(c, s, g, 0, n)
  {
  }

  lemma ThreePages(n: nat)
    requires n == 3
    ensures PageNumbers(n) == {0, 1, 2}
  {
  }

  // Settling the parent of a split leaf takes the pages that gaining a child took before.
  lemma LeafRoom(g: Model, p: nat, n: nat, m: Key, x: Cell, innerMax: nat)
    requires TreeOk(g.t, g.top) && p in g.t && g.t[p].ht == 0
    requires g.t[p].parent in g.t && p in g.t[g.t[p].parent].kids
    requires CanSplit(g.t, WithRow(g, p, x.key, x.row).top, p, n, m, 0)
    ensures var g2, r := LeafSplitModel(g, p, n, m, x), g.t[p].parent;
            TreeOk(g2.t, g2.top) && PagesToSettle(g2, innerMax, r) == PagesToGain(g, innerMax, r)
  {
    var g1, r := WithRow(g, p, x.key, x.row), g.t[p].parent;
    SettleAfterSplit(g1, p, n, m, 0, innerMax);
    ListedByParent(g.t, g.top, r, p);
    GainAbove(g, g1, innerMax, r, 0);
  }

  // What the search for the split leaf's separator needs.
  lemma LeafSearchable(c: Caps, s0: seq<Page>, s: seq<Page>, g: Model, p: nat, cell: nat, x: Cell, m: Key)
    requires CanInsert(c, s0, g, p, cell, x.key) && p != 0 && s0[p].count == c.leafMax && |s0| < FILE_PAGES_NUM
    requires LeafDivided(c, s0, s, p, cell, x)
    requires g.t[p].parent in g.t && p in g.t[g.t[p].parent].kids && g.t[g.t[p].parent].ht == 1
    requires PageOk(c, s, WithRow(g, p, x.key, x.row), g.t[p].parent)
    ensures var r := g.t[p].parent;
            && s[p].parent == r && s[|s0|].parent == r && r < |s|
            && Sized(c, s[r]) && s[r].count <= c.innerMax && SlotsAscend(s[r])
    ensures s0[p].count > 0 && Covers(g.t, p, s0[p].cells[s0[p].count - 1].key)
  {
    var g1 := WithRow(g, p, x.key, x.row);
    assert PageOk(c, s0, g, p);
    TreeOkHigher(g.t, g.top, g1.top);
    InnerAscends(c, s[g.t[p].parent], g1, g.t[p].parent);
  }

  // ------------------------------------------------------------------
  // Finding a key

  // The child chosen by the binary search covers the key.
  lemma Descends(c: Caps, s: seq<Page>, g: Model, p: nat, key: Key, j: nat)
    requires TreeOk(g.t, g.top) && PageOk(c, s, g, p) && g.t[p].ht > 0 && Covers(g.t, p, key)
    requires FirstNotBelow(s[p], key, j)
    ensures j < |g.t[p].kids| && Covers(g.t, g.t[p].kids[j], key)
    ensures g.t[g.t[p].kids[j]].ht < g.t[p].ht && g.t[p].kids[j] == Children(s[p])[j]
  {
    var kids := g.t[p].kids;
    assert NodeOk(g.t, g.top, p) && KidOk(g.t, p, j);
    if j > 0 {
      assert s[p].slots[j - 1].key == g.t[kids[j - 1]].hi;
    }
    if j < s[p].count {
      assert s[p].slots[j].key == g.t[kids[j]].hi;
    }
  }

  // The lower bound meets the key exactly when the table has it.
  lemma FoundIffPresent(page: Page, n: Node, rows: map<Key, Row>, key: Key, ans: nat)
    requires page.count <= |page.cells| && CellsAscend(page) && RowsOk(page, n, rows) && n.lo < key <= n.hi
    requires LowerBound(page, key, ans)
    ensures key in rows <==> ans < page.count && page.cells[ans].key == key
    ensures key in rows ==> rows[key] == page.cells[ans].row
  {
    if key in rows {
      var i :| 0 <= i < page.count && page.cells[i].key == key;
      assert ans <= i;
      assert key <= page.cells[ans].key;
    }
  }

  // ------------------------------------------------------------------
  // Walking along the leaves

  // A row of the leaf's range is one of its cells.
  lemma RowInLeaf(page: Page, n: Node, rows: map<Key, Row>, k: Key) returns (i: nat)
    requires page.count <= |page.cells| && RowsOk(page, n, rows) && k in rows && n.lo < k <= n.hi
    ensures i < page.count && page.cells[i].key == k
  {
    i :| 0 <= i < page.count && page.cells[i].key == k;
  }

  // No key lies between cell i and the next cell of the same leaf.
  lemma NextCell(c: Caps, s: seq<Page>, g: Model, p: nat, i: nat, k: Key)
    requires TableOk(c, s, g) && p in g.t && g.t[p].ht == 0 && p < |s| && i + 1 < s[p].count <= |s[p].cells|
    requires k in g.rows && s[p].cells[i].key < k
    ensures s[p].cells[i + 1].key <= k
  {
    assert PageOk(c, s, g, p);
    if k <= g.t[p].hi {
      var j := RowInLeaf(s[p], g.t[p], g.rows, k);
      assert i < j;
      assert i + 1 < j ==> s[p].cells[i + 1].key < s[p].cells[j].key;
    }
  }

  // The next leaf's range starts where this one's ends.
  lemma NextLeaf(c: Caps, s: seq<Page>, g: Model, p: nat)
    requires TableOk(c, s, g) && p in g.t && g.t[p].ht == 0 && p < |s| && 0 < s[p].count <= |s[p].cells|
    ensures s[p].link == 0 <==> g.t[p].hi == INF
    ensures var q, last := s[p].link, s[p].cells[s[p].count - 1].key;
            q != 0 ==>
              && q in g.t && g.t[q].ht == 0 && q < |s| && 0 < s[q].count <= |s[q].cells|
              && g.t[p].hi == last == g.t[q].lo < s[q].cells[0].key
  {
    assert PageOk(c, s, g, p) && NodeOk(g.t, g.top, p);
    var q := s[p].link;
    if g.t[p].hi < INF {
      assert PageOk(c, s, g, q);
    }
  }

  // The row after cell i of leaf p.
  lemma NextRow(c: Caps, s: seq<Page>, g: Model, p: nat, i: nat)
    requires TableOk(c, s, g) && p in g.t && g.t[p].ht == 0 && p < |s| && i < s[p].count <= |s[p].cells|
    ensures var was, q := s[p].cells[i].key, s[p].link;
            if i + 1 < s[p].count then
              && was < s[p].cells[i + 1].key
              && forall k | k in g.rows && was < k :: s[p].cells[i + 1].key <= k
            else if q == 0 then forall k | k in g.rows :: k <= was
            else
              && q in g.t && g.t[q].ht == 0 && q < |s| && 0 < s[q].count <= |s[q].cells|
              && was < s[q].cells[0].key
              && forall k | k in g.rows && was < k :: s[q].cells[0].key <= k
  {
    var was, q := s[p].cells[i].key, s[p].link;
    assert PageOk(c, s, g, p);
    NextLeaf(c, s, g, p);
    if i + 1 < s[p].count {
      forall k | k in g.rows && was < k ensures s[p].cells[i + 1].key <= k {
        NextCell(c, s, g, p, i, k);
      }
    } else if q == 0 {
      forall k | k in g.rows ensures k <= was {
        if g.t[p].lo < k {
          var j := RowInLeaf(s[p], g.t[p], g.rows, k);
          assert j < i ==> s[p].cells[j].key < was;
        }
      }
    } else {
      assert PageOk(c, s, g, q);
      forall k | k in g.rows && was < k ensures s[q].cells[0].key <= k {
        if k <= g.t[q].hi {
          var j := RowInLeaf(s[q], g.t[q], g.rows, k);
          assert 0 < j ==> s[q].cells[0].key < s[q].cells[j].key;
        }
      }
    }
  }

  // The leaf covering key 0 begins with the table's first row.
  lemma FirstRow(c: Caps, s: seq<Page>, g: Model, p: nat, cell: nat)
    requires TableOk(c, s, g) && g.rows != map[] && Covers(g.t, p, 0) && g.t[p].ht == 0 && p < |s|
    requires s[p].count <= |s[p].cells| && LowerBound(s[p], 0, cell)
    ensures cell == 0 < s[p].count
    ensures forall k | k in g.rows :: s[p].cells[0].key <= k
  {
    assert PageOk(c, s, g, p) && NodeOk(g.t, g.top, p) && NodeOk(g.t, g.top, 0);
    if s[p].count == 0 {
      var k :| k in g.rows;
      var j := RowInLeaf(s[p], g.t[p], g.rows, k);
    }
    forall k | k in g.rows ensures s[p].cells[0].key <= k {
      if k <= g.t[p].hi {
        var j := RowInLeaf(s[p], g.t[p], g.rows, k);
        assert 0 < j ==> s[p].cells[0].key < s[p].cells[j].key;
      }
    }
  }

  // The rows with the first n cells put in.
  ghost function WithCells(rows: map<Key, Row>, cells: seq<Cell>, n: nat): map<Key, Row>
    requires n <= |cells|
  {
    if n == 0 then rows else WithCells(rows, cells, n - 1)[cells[n - 1].key := cells[n - 1].row]
  }

  // Cells with different, absent keys all get in, and nothing else changes.
  lemma {:induction false} WithCellsHolds(rows: map<Key, Row>, cells: seq<Cell>, n: nat)
    requires n <= |cells|
    requires forall i, j | 0 <= i < j < |cells| :: cells[i].key != cells[j].key
    requires forall i | 0 <= i < |cells| :: cells[i].key !in rows
    ensures var all := WithCells(rows, cells, n);
            && |all| == |rows| + n
            && (forall i | 0 <= i < n :: cells[i].key in all && all[cells[i].key] == cells[i].row)
            && (forall i | n <= i < |cells| :: cells[i].key !in all)
            && (forall k | k in rows :: k in all && all[k] == rows[k])
  {
    if n > 0 {
      WithCellsHolds(rows, cells, n - 1);
    }
  }

  // `out` lists, in ascending key order, exactly the rows with keys below the bound.
  ghost predicate Listed(out: seq<Cell>, rows: map<Key, Row>, bound: int) {
    && (forall i, j | 0 <= i < j < |out| :: out[i].key < out[j].key)
    && (forall i | 0 <= i < |out| :: out[i].key in rows && rows[out[i].key] == out[i].row && out[i].key < bound)
    && (forall k {:trigger k in rows} | k in rows && k < bound :: exists i :: 0 <= i < |out| && out[i].key == k)
  }

  lemma ListedStep(out: seq<Cell>, rows: map<Key, Row>, x: Cell, bound: int)
    requires Listed(out, rows, x.key) && x.key in rows && rows[x.key] == x.row && x.key < bound
    requires forall k | k in rows && x.key < k :: bound <= k
    ensures Listed(out + [x], rows, bound)
  {
    var out' := out + [x];
    forall k {:trigger k in rows} | k in rows && k < bound ensures exists i :: 0 <= i < |out'| && out'[i].key == k {
      if k < x.key {
        var i :| 0 <= i < |out| && out[i].key == k;
        assert out'[i].key == k;
      } else {
        assert out'[|out|].key == k;
      }
    }
  }

  // Everything the raise of a split leaf needs to know.
  lemma LeafSplitReady(c: Caps, s0: seq<Page>, s: seq<Page>, g: Model, p: nat, cell: nat, x: Cell) returns (m: Key)
    requires CanInsert(c, s0, g, p, cell, x.key) && p != 0 && s0[p].count == c.leafMax
    requires |s0| + PagesToInsert(c, s0, g, p) <= FILE_PAGES_NUM && |s0| < FILE_PAGES_NUM
    requires LeafDivided(c, s0, s, p, cell, x)
    ensures LeafRaisable(c, s0, s, g, p, x, m)
  {
    m := LeafSplitTree(c, s0, s, g, p, cell, x);
    LeafAlmost(c, s0, s, g, p, cell, x, m);
    LeafSearchable(c, s0, s, g, p, cell, x, m);
    LeafRoom(g, p, |s0|, m, x, c.innerMax);
  }

  ghost predicate LeafRaisable(c: Caps, s0: seq<Page>, s: seq<Page>, g: Model, p: nat, x: Cell, m: Key) {
    var n := |s0|;
    && TreeOk(g.t, g.top) && FanOk(g.t, c.innerMax, -1) && p in g.t && g.t[p].ht == 0 && p != 0 && p < n
    && g.t[p].parent in g.t && p in g.t[g.t[p].parent].kids && n !in g.t && |s| == n + 1
    && CanSplit(g.t, WithRow(g, p, x.key, x.row).top, p, n, m, 0)
    && AlmostSplit(c, s, LeafSplitModel(g, p, n, m, x), g.t[p].parent, n)
    && PageOk(c, s, WithRow(g, p, x.key, x.row), g.t[p].parent)
    && s[p].nodeType == LEAF && 0 < s[p].count <= |s[p].cells| && m == s[p].cells[s[p].count - 1].key
    && s[p].parent == g.t[p].parent && s[n].parent == g.t[p].parent
    && Sized(c, s[g.t[p].parent]) && s[g.t[p].parent].count <= c.innerMax && SlotsAscend(s[g.t[p].parent])
    && 0 < s0[p].count <= |s0[p].cells| && Covers(g.t, p, s0[p].cells[s0[p].count - 1].key)
    && (var g2, r := LeafSplitModel(g, p, n, m, x), g.t[p].parent;
        && TreeOk(g2.t, g2.top)
        && n + 1 + PagesToSettle(g2, c.innerMax, r) <= FILE_PAGES_NUM
        && n + 1 + PagesToSettle(g2, c.innerMax, r) == n + PagesToInsert(c, s0, g, p))
  }

  lemma LeafLowered(c: Caps, s0: seq<Page>, s: seq<Page>, s': seq<Page>, g: Model, p: nat, m: Key, x: Cell, key: Key,
                    j: nat)
    requires LeafRaisable(c, s0, s, g, p, x, m) && key == s0[p].cells[s0[p].count - 1].key
    requires g.t[p].parent < |s| && FirstNotBelow(s[g.t[p].parent], key, j) && j < |s[g.t[p].parent].slots|
    requires var r := g.t[p].parent; s' == s[r := s[r].(slots := s[r].slots[j := s[r].slots[j].(key := m)])]
    ensures Pending(c, s', LeafSplitModel(g, p, |s0|, m, x), g.t[p].parent, |s0|, j + 1)
    ensures LeafSplitModel(g, p, |s0|, m, x).t[g.t[p].parent].ht == 1 && s'[|s0|].parent == g.t[p].parent
  {
    LeafRaised(c, s, s', g, p, |s0|, m, x, key, j);
  }
}
