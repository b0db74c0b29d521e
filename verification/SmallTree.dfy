/**
 A valid table with the source's capacities whose root has room: page 0 over pages 1 and 2, and each of these over four
 full leaves; 120 rows with even keys.
 */
module SmallTree {
  import opened BTreeShape
  import opened BTreePages

  const PAGES: nat := 11
  const TOP: int := 238

  // Leaf number n, from left to right, is page 3 + n.
  function FirstKey(n: nat): int {
    30 * n
  }

  function LastKey(n: int): int {
    30 * n + 28
  }

  function KidsOf(q: nat): seq<nat>
    requires q < 3
  {
    if q == 0 then [1, 2] else [4 * q - 1, 4 * q, 4 * q + 1, 4 * q + 2]
  }

  function Above(q: nat): nat {
    if q < 3 then 0 else (q + 1) / 4
  }

  // The numbers of the first and the last leaf below page q.
  function FirstLeaf(q: nat): int {
    if q < 2 then 0 else if q == 2 then 4 else q - 3
  }

  function LastLeaf(q: nat): int {
    if q == 1 then 3 else if q < 3 then 7 else q - 3
  }

  function NodeOf(q: nat): Node {
    Node(if q == 0 then 2 else if q < 3 then 1 else 0,
         if FirstLeaf(q) == 0 then -1 else LastKey(FirstLeaf(q) - 1),
         if LastLeaf(q) == 7 then INF else LastKey(LastLeaf(q)), if q < 3 then KidsOf(q) else [], Above(q))
  }

  ghost function Tree(): (t: Nodes)
    ensures forall q: nat :: q in t <==> q < PAGES
    ensures forall q | q in t :: t[q] == NodeOf(q)
  {
    map q: nat | q < PAGES :: NodeOf(q)
  }

  function CellOf(n: nat, i: nat): Cell
    requires n < 8 && i < 15
  {
    Cell(30 * n + 2 * i, Row(30 * n + 2 * i, []))
  }

  function SlotOf(q: nat): Slot
    requires 0 < q < PAGES
  {
    Slot(q, LastKey(LastLeaf(q)))
  }

  function PageAt(q: nat): Page
    requires q < PAGES
  {
    var zero := ZeroPage(TOY_SQL_CAPS);
    if q == 0 then
      Page(INTERNAL, true, 0, 1, 2, zero.cells, [SlotOf(1), Slot(0, 0), Slot(0, 0), Slot(0, 0)])
    else if q < 3 then
      Page(INTERNAL, false, 0, 3, 4 * q + 2, zero.cells,
           [SlotOf(4 * q - 1), SlotOf(4 * q), SlotOf(4 * q + 1), Slot(0, 0)])
    else
      Page(LEAF, false, Above(q), 15, if q == 10 then 0 else q + 1,
           seq(15, i requires 0 <= i < 15 => CellOf(q - 3, i)), zero.slots)
  }

  function Pages(): (s: seq<Page>)
    ensures |s| == PAGES && forall q | 0 <= q < PAGES :: s[q] == PageAt(q)
  {
    seq(PAGES, q requires 0 <= q < PAGES => PageAt(q))
  }

  // The rows with even keys below n.
  ghost function RowsBelow(n: nat): map<Key, Row> {
    map k: Key | k < n && k % 2 == 0 :: Row(k, [])
  }

  ghost function TableModel(): Model {
    Model(Tree(), TOP, RowsBelow(120 * 2))
  }

  // ------------------------------------------------------------------

  lemma KidIsOk(q: nat, j: nat)
    requires q < 3 && j < |KidsOf(q)|
    ensures q in Tree() && j < |Tree()[q].kids| && KidOk(Tree(), q, j)
  {
    var t, k := Tree(), KidsOf(q)[j];
    assert t[q] == NodeOf(q) && t[k] == NodeOf(k) && t[q].kids[j] == k;
    if j > 0 {
      assert t[k - 1] == NodeOf(k - 1) && t[q].kids[j - 1] == k - 1;
    }
  }

  lemma ListedAbove(q: nat)
    requires 0 < q < PAGES
    ensures Above(q) in Tree() && q in Tree()[Above(q)].kids
  {
    var r := Above(q);
    assert Tree()[r] == NodeOf(r);
    assert KidsOf(r)[if r == 0 then q - 1 else q - (4 * r - 1)] == q;
  }

  lemma TreeIsOk()
    ensures TreeOk(Tree(), TOP)
  {
    var t := Tree();
    forall q {:trigger NodeOk(t, TOP, q)} | q in t ensures NodeOk(t, TOP, q) {
      assert t[q] == NodeOf(q);
      if q < 3 {
        forall j | 0 <= j < |KidsOf(q)| ensures KidOk(t, q, j) {
          KidIsOk(q, j);
        }
      }
      if q > 0 {
        ListedAbove(q);
      }
    }
  }

  lemma LeafRowsOk(q: nat)
    requires 3 <= q < PAGES
    ensures RowsOk(PageAt(q), NodeOf(q), RowsBelow(120 * 2))
  {
    var page, n := PageAt(q), NodeOf(q);
    assert forall i | 0 <= i < 15 :: page.cells[i] == CellOf(q - 3, i);
    forall k {:trigger k in RowsBelow(120 * 2)} | k in RowsBelow(120 * 2) && n.lo < k <= n.hi
      ensures exists i :: 0 <= i < 15 && page.cells[i].key == k
    {
      var i := (k - FirstKey(q - 3)) / 2;
      assert page.cells[i].key == k;
    }
  }

  lemma LeafPageOk(q: nat)
    requires 3 <= q < PAGES
    ensures PageOk(TOY_SQL_CAPS, Pages(), TableModel(), q)
  {
    var page := PageAt(q);
    assert forall i | 0 <= i < 15 :: page.cells[i] == CellOf(q - 3, i);
    LeafRowsOk(q);
    assert Tree()[q] == NodeOf(q);
    assert LeafOk(TOY_SQL_CAPS, page, NodeOf(q), TOP, q);
    assert q < 10 ==> Tree()[q + 1] == NodeOf(q + 1);
    assert NextOk(page, Tree(), q);
  }

  lemma SlotsOk(q: nat)
    requires q < 3
    ensures Children(PageAt(q)) == KidsOf(q)
    ensures forall j | 0 <= j < PageAt(q).count ::
              KidsOf(q)[j] < PAGES && PageAt(q).slots[j].key == NodeOf(KidsOf(q)[j]).hi
  {
    var page := PageAt(q);
    assert |Children(page)| == page.count + 1 == |KidsOf(q)|;
    forall j | 0 <= j < |KidsOf(q)| ensures Children(page)[j] == KidsOf(q)[j] {
    }
  }

  lemma InnerPageOk(q: nat)
    requires q < 3
    ensures PageOk(TOY_SQL_CAPS, Pages(), TableModel(), q)
  {
    SlotsOk(q);
    assert Tree()[q] == NodeOf(q);
    assert InnerOk(TOY_SQL_CAPS, PageAt(q), Tree(), q);
  }

  lemma FanIsOk()
    ensures FanOk(Tree(), 3, -1)
  {
    forall q | q in Tree() && Tree()[q].ht > 0 ensures 2 <= |Tree()[q].kids| <= 4 {
      assert Tree()[q] == NodeOf(q);
    }
  }

  lemma IsTable()
    ensures TableOk(TOY_SQL_CAPS, Pages(), TableModel())
  {
    TreeIsOk();
    FanIsOk();
    assert Tree().Keys == PageNumbers(|Pages()|);
    forall q {:trigger PageOk(TOY_SQL_CAPS, Pages(), TableModel(), q)} | q in Tree()
      ensures PageOk(TOY_SQL_CAPS, Pages(), TableModel(), q)
    {
      if q < 3 {
        InnerPageOk(q);
      } else {
        LeafPageOk(q);
      }
    }
  }
}
