/**
 A valid table with the source's capacities in which every page is full: 960 rows with even keys, on 85 pages. The pages
 are numbered level by level, which is an order that no run of insertions gives.
 */
module FullTree {
  import opened Bytes
  import opened BTreeShape
  import opened BTreePages

  const PAGES: nat := 85
  const TOP: int := 1918

  // The text of every row.
  function Letters(): (text: seq<Byte>)
    ensures |text| == 23 && forall i | 0 <= i < 23 :: text[i] == 65
  {
    seq(23, i requires 0 <= i < 23 => 65)
  }

  // Leaf number n, from left to right, is page 21 + n.
  function FirstKey(n: nat): int {
    30 * n
  }

  function LastKey(n: int): int {
    30 * n + 28
  }

  // The children of page q, and the page above it.
  function KidsOf(q: nat): seq<nat> {
    [4 * q + 1, 4 * q + 2, 4 * q + 3, 4 * q + 4]
  }

  function Above(q: nat): nat {
    if q == 0 then 0 else (q - 1) / 4
  }

  // The numbers of the first and the last leaf below page q.
  function FirstLeaf(q: nat): int {
    if q == 0 then 0 else if q < 5 then 16 * (q - 1) else if q < 21 then 4 * (q - 5) else q - 21
  }

  function LastLeaf(q: nat): int {
    if q == 0 then 63 else if q < 5 then 16 * q - 1 else if q < 21 then 4 * (q - 4) - 1 else q - 21
  }

  function Height(q: nat): nat {
    if q == 0 then 3 else if q < 5 then 2 else if q < 21 then 1 else 0
  }

  function NodeOf(q: nat): Node {
    Node(Height(q), if FirstLeaf(q) == 0 then -1 else LastKey(FirstLeaf(q) - 1),
         if LastLeaf(q) == 63 then INF else LastKey(LastLeaf(q)), if q < 21 then KidsOf(q) else [], Above(q))
  }

  ghost function Tree(): (t: Nodes)
    ensures forall q: nat :: q in t <==> q < PAGES
    ensures forall q | q in t :: t[q] == NodeOf(q)
  {
    map q: nat | q < PAGES :: NodeOf(q)
  }

  function CellOf(n: nat, i: nat): Cell
    requires n < 64 && i < 15
  {
    Cell(30 * n + 2 * i, Row(30 * n + 2 * i, Letters()))
  }

  function SlotOf(q: nat): Slot
    requires 0 < q < 85
  {
    Slot(q, LastKey(LastLeaf(q)))
  }

  function PageAt(q: nat): Page
    requires q < PAGES
  {
    var zero := ZeroPage(TOY_SQL_CAPS);
    if q < 21 then
      Page(INTERNAL, q == 0, Above(q), 3, 4 * q + 4, zero.cells,
           [SlotOf(4 * q + 1), SlotOf(4 * q + 2), SlotOf(4 * q + 3), Slot(0, 0)])
    else
      Page(LEAF, false, Above(q), 15, if q == 84 then 0 else q + 1,
           seq(15, i requires 0 <= i < 15 => CellOf(q - 21, i)), zero.slots)
  }

  function Pages(): (s: seq<Page>)
    ensures |s| == PAGES && forall q | 0 <= q < PAGES :: s[q] == PageAt(q)
  {
    seq(PAGES, q requires 0 <= q < PAGES => PageAt(q))
  }

  // The rows with even keys below n.
  ghost function RowsBelow(n: nat): map<Key, Row> {
    map k: Key | k < n && k % 2 == 0 :: Row(k, Letters())
  }

  ghost function TableModel(): Model {
    Model(Tree(), TOP, RowsBelow(960 * 2))
  }

  // ------------------------------------------------------------------

  lemma InnerNodeOk(q: nat)
    requires q < 21
    ensures NodeOk(Tree(), TOP, q)
  {
    var t := Tree();
    assert t[q] == NodeOf(q);
    forall j | 0 <= j < 4 ensures KidOk(t, q, j) {
      KidIsOk(q, j);
    }
    if q > 0 {
      ListedAbove(q);
    }
  }

  lemma KidIsOk(q: nat, j: nat)
    requires q < 21 && j < 4
    ensures q in Tree() && j < |Tree()[q].kids| && KidOk(Tree(), q, j)
  {
    var t, k := Tree(), 4 * q + 1 + j;
    ChildLeaves(q, j);
    assert t[q] == NodeOf(q) && t[k] == NodeOf(k) && t[q].kids[j] == k;
    if j > 0 {
      assert t[k - 1] == NodeOf(k - 1) && t[q].kids[j - 1] == k - 1;
    }
  }

  // The leaves below a page are those below its children.
  lemma ChildLeaves(q: nat, j: nat)
    requires q < 21 && j < 4
    ensures var k := 4 * q + 1 + j;
            && Above(k) == q && Height(k) + 1 == Height(q)
            && FirstLeaf(k) == (if j == 0 then FirstLeaf(q) else LastLeaf(k - 1) + 1)
            && (j == 3 ==> LastLeaf(k) == LastLeaf(q)) && FirstLeaf(k) <= LastLeaf(k)
            && (j > 0 ==> FirstLeaf(k) > 0 && LastLeaf(k - 1) < 63) && (j < 3 ==> LastLeaf(k) < 63)
  {
  }

  lemma ListedAbove(q: nat)
    requires 0 < q < PAGES
    ensures Above(q) in Tree() && q in Tree()[Above(q)].kids
  {
    var r, j := (q - 1) / 4, (q - 1) % 4;
    assert Tree()[r] == NodeOf(r) && q == 4 * r + 1 + j;
    assert KidsOf(r)[j] == q;
  }

  lemma LeafNodeOk(q: nat)
    requires 21 <= q < PAGES
    ensures NodeOk(Tree(), TOP, q)
  {
    ListedAbove(q);
    assert Tree()[q] == NodeOf(q) && Tree()[Above(q)] == NodeOf(Above(q));
  }

  lemma TreeIsOk()
    ensures TreeOk(Tree(), TOP)
  {
    var t := Tree();
    forall q {:trigger NodeOk(t, TOP, q)} | q in t ensures NodeOk(t, TOP, q) {
      if q < 21 {
        InnerNodeOk(q);
      } else {
        LeafNodeOk(q);
      }
    }
  }

  lemma LeafRowsOk(q: nat)
    requires 21 <= q < PAGES
    ensures RowsOk(PageAt(q), NodeOf(q), RowsBelow(960 * 2))
  {
    var page, n := PageAt(q), NodeOf(q);
    assert forall i | 0 <= i < 15 :: page.cells[i] == CellOf(q - 21, i);
    forall k {:trigger k in RowsBelow(960 * 2)} | k in RowsBelow(960 * 2) && n.lo < k <= n.hi
      ensures exists i :: 0 <= i < 15 && page.cells[i].key == k
    {
      var i := (k - FirstKey(q - 21)) / 2;
      assert page.cells[i].key == k;
    }
  }

  lemma LeafPageOk(q: nat)
    requires 21 <= q < PAGES
    ensures PageOk(TOY_SQL_CAPS, Pages(), TableModel(), q)
  {
    var page := PageAt(q);
    assert forall i | 0 <= i < 15 :: page.cells[i] == CellOf(q - 21, i);
    LeafRowsOk(q);
    assert LeafOk(TOY_SQL_CAPS, page, NodeOf(q), TOP, q);
    assert NextOk(page, Tree(), q);
  }

  lemma InnerPageOk(q: nat)
    requires q < 21
    ensures PageOk(TOY_SQL_CAPS, Pages(), TableModel(), q)
  {
    var page, t := PageAt(q), Tree();
    assert Children(page) == KidsOf(q) == t[q].kids;
    forall j | 0 <= j < 3 ensures t[q].kids[j] in t && page.slots[j].key == t[t[q].kids[j]].hi {
      assert t[4 * q + 1 + j] == NodeOf(4 * q + 1 + j);
    }
  }

  lemma IsTable()
    ensures TableOk(TOY_SQL_CAPS, Pages(), TableModel())
  {
    TreeIsOk();
    assert Tree().Keys == PageNumbers(|Pages()|);
    forall q {:trigger PageOk(TOY_SQL_CAPS, Pages(), TableModel(), q)} | q in Tree()
      ensures PageOk(TOY_SQL_CAPS, Pages(), TableModel(), q)
    {
      if q < 21 {
        InnerPageOk(q);
      } else {
        LeafPageOk(q);
      }
    }
  }
}
