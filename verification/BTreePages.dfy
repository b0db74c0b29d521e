/**
 The pages of the table and their relation to the abstract tree.

 A page has the header fields of the on-disk layout.  `count` is the number of
 cells of a leaf or the number of keys of an internal node, `link` the next leaf
 or the right child: each pair shares one offset in the layout.  `cells` and
 `slots` are the fixed-capacity bodies of the two kinds of node; entries at
 `count` and beyond are stale.
 */
module BTreePages {
  import Bytes
  import opened Sequences
  import opened BTreeShape

  const ROOT_PAGE_NUM: nat := 0
  const INVALID_PAGE_NUM: nat := 0xFFFF_FFFF
  const FILE_PAGES_NUM: nat := Bytes.FILE_PAGES_NUM

  type Key = k: int | 0 <= k < INF

  datatype Row = Row(id: Key, text: seq<Bytes.Byte>)

  datatype NodeType = INTERNAL | LEAF

  datatype Cell = Cell(key: Key, row: Row)

  datatype Slot = Slot(child: nat, key: Key)

  datatype Page = Page(
    nodeType: NodeType, isRoot: bool, parent: nat,
    count: nat, link: nat,
    cells: seq<Cell>, slots: seq<Slot>)

  // Capacities: LEAF_NODE_MAX_CELLS and INTERNAL_NODE_MAX_CELLS, which are 15 and 3 in the source.
  datatype RawCaps = Caps(leafMax: nat, innerMax: nat) {
    // LEAF_NODE_RIGHT_SPLIT_COUNT and LEAF_NODE_LEFT_SPLIT_COUNT
    function RightSplit(): nat { (leafMax + 1) / 2 }
    function LeftSplit(): nat { leafMax + 1 - RightSplit() }
  }
  type Caps = c: RawCaps | 1 <= c.leafMax && 3 <= c.innerMax witness Caps(15, 3)

  const TOY_SQL_CAPS: Caps := Caps(15, 3)

  // The file is created full of zero bytes.
  function ZeroPage(c: Caps): Page {
    Page(INTERNAL, false, 0, 0, 0,
         seq(c.leafMax, _ => Cell(0, Row(0, []))), seq(c.innerMax + 1, _ => Slot(0, 0)))
  }

  // What the table stands for: the abstract tree, its largest key and its rows.
  datatype Model = Model(t: Nodes, top: int, rows: map<Key, Row>)

  // The body arrays have their full length, and no slot holds the invalid page number
  // (internal_node_child ends the program when it meets one).
  ghost predicate Sized(c: Caps, page: Page) {
    && |page.cells| == c.leafMax
    && |page.slots| == c.innerMax + 1
    && forall j | 0 <= j < |page.slots| :: page.slots[j].child != INVALID_PAGE_NUM
  }

  // The children of an internal page in key order, the right child last.
  ghost function Children(page: Page): (r: seq<nat>)
    requires page.count <= |page.slots|
    ensures |r| == page.count + if page.link == INVALID_PAGE_NUM then 0 else 1
    ensures forall j | 0 <= j < page.count :: r[j] == page.slots[j].child
    ensures page.link != INVALID_PAGE_NUM ==> r[page.count] == page.link
  {
    SlotChildren(page.slots, page.count) + if page.link == INVALID_PAGE_NUM then [] else [page.link]
  }

  ghost function SlotChildren(slots: seq<Slot>, n: nat): (r: seq<nat>)
    requires n <= |slots|
    ensures |r| == n && forall j | 0 <= j < n :: r[j] == slots[j].child
  {
    if n == 0 then [] else SlotChildren(slots, n - 1) + [slots[n - 1].child]
  }

  ghost predicate CellsAscend(page: Page)
    requires page.count <= |page.cells|
  {
    forall i, j | 0 <= i < j < page.count :: page.cells[i].key < page.cells[j].key
  }

  ghost predicate SlotsAscend(page: Page)
    requires page.count <= |page.slots|
  {
    forall i, j | 0 <= i < j < page.count :: page.slots[i].key < page.slots[j].key
  }

  // Slot `ans` is the first whose separator is not below the key.
  ghost predicate FirstNotBelow(page: Page, key: Key, ans: nat)
    requires page.count <= |page.slots|
  {
    && ans <= page.count
    && (forall j | 0 <= j < ans :: page.slots[j].key < key)
    && (forall j | ans <= j < page.count :: key <= page.slots[j].key)
  }

  // ------------------------------------------------------------------
  // One page against the abstract tree

  ghost predicate LeafOk(c: Caps, page: Page, n: Node, top: int, q: nat)
    requires Sized(c, page)
  {
    && page.nodeType == LEAF
    && page.count <= c.leafMax
    && (q != 0 ==> c.RightSplit() <= page.count)
    && CellsAscend(page)
    && (forall i | 0 <= i < page.count :: n.lo < page.cells[i].key <= n.hi)
    && (if page.count == 0 then n.hi == INF && top == 0
        else page.cells[page.count - 1].key == if n.hi < INF then n.hi else top)
  }

  ghost predicate NextOk(page: Page, t: Nodes, q: nat)
    requires q in t
  {
    if t[q].hi == INF then page.link == 0
    else page.link in t && t[page.link].ht == 0 && t[page.link].lo == t[q].hi
  }

  // The leaf holds exactly the rows whose keys lie in its range.
  ghost predicate RowsOk(page: Page, n: Node, rows: map<Key, Row>)
    requires page.count <= |page.cells|
  {
    && (forall i | 0 <= i < page.count ::
          page.cells[i].key in rows && rows[page.cells[i].key] == page.cells[i].row)
    && (forall k | k in rows && n.lo < k <= n.hi ::
          exists i :: 0 <= i < page.count && page.cells[i].key == k)
  }

  ghost predicate InnerOk(c: Caps, page: Page, t: Nodes, q: nat)
    requires Sized(c, page) && q in t
  {
    && page.nodeType == INTERNAL
    && page.count <= c.innerMax
    && page.link != INVALID_PAGE_NUM
    && Children(page) == t[q].kids
    && (forall j | 0 <= j < page.count ::
          t[q].kids[j] in t && page.slots[j].key == t[t[q].kids[j]].hi)
  }

  // What page q must hold, its parent pointer aside.
  ghost predicate BodyOk(c: Caps, page: Page, g: Model, q: nat) {
    && q in g.t
    && Sized(c, page)
    && (page.isRoot <==> q == 0)
    && if g.t[q].ht == 0
       then LeafOk(c, page, g.t[q], g.top, q) && NextOk(page, g.t, q) && RowsOk(page, g.t[q], g.rows)
       else InnerOk(c, page, g.t, q)
  }

  ghost predicate PageOk(c: Caps, s: seq<Page>, g: Model, q: nat) {
    && q in g.t && q < |s|
    && BodyOk(c, s[q], g, q)
    && (q != 0 ==> s[q].parent == g.t[q].parent)
  }

  ghost function PageNumbers(n: nat): (r: set<nat>)
    ensures forall q: nat :: q in r <==> q < n
  {
    if n == 0 then {} else PageNumbers(n - 1) + {n - 1}
  }

  // Every allocated page is a node of the tree and as the tree says.
  ghost predicate StoreOk(c: Caps, s: seq<Page>, g: Model) {
    && |s| <= FILE_PAGES_NUM
    && g.t.Keys == PageNumbers(|s|)
    && (forall q {:trigger PageOk(c, s, g, q)} | q in g.t :: PageOk(c, s, g, q))
  }

  ghost predicate TableOk(c: Caps, s: seq<Page>, g: Model) {
    && TreeOk(g.t, g.top)
    && FanOk(g.t, c.innerMax, -1)
    && StoreOk(c, s, g)
  }

  // The page apart from its parent pointer.
  ghost predicate SameBody(s: seq<Page>, s': seq<Page>, q: nat) {
    q < |s| && q < |s'| && s'[q] == s[q].(parent := s'[q].parent)
  }

  // ------------------------------------------------------------------
  // Pages whose right spine can be followed to the largest key

  ghost predicate SpinePage(s: seq<Page>, g: Model, q: nat)
    requires q in g.t
  {
    && q < |s|
    && if g.t[q].ht == 0 then
         && s[q].nodeType == LEAF
         && s[q].count <= |s[q].cells|
         && MaxBelow(g.t, g.top, q) == if s[q].count == 0 then 0 else s[q].cells[s[q].count - 1].key
       else
         && s[q].nodeType == INTERNAL
         && g.t[q].kids != []
         && s[q].link == g.t[q].kids[|g.t[q].kids| - 1]
  }

  ghost predicate SpineOk(s: seq<Page>, g: Model, h: nat) {
    forall q {:trigger SpinePage(s, g, q)} | q in g.t && g.t[q].ht <= h :: SpinePage(s, g, q)
  }

  lemma PageOkSpine(c: Caps, s: seq<Page>, g: Model, q: nat)
    requires PageOk(c, s, g, q)
    ensures SpinePage(s, g, q)
  {
  }

  // The children of an internal page have height h, and their maxima ascend.
  ghost predicate Ordered(c: Caps, page: Page, g: Model, h: nat)
    requires Sized(c, page) && page.count <= c.innerMax + 1
  {
    var ch := Children(page);
    && (forall j | 0 <= j < |ch| :: ch[j] in g.t && g.t[ch[j]].ht == h)
    && (forall i, j | 0 <= i < j < |ch| :: MaxBelow(g.t, g.top, ch[i]) < MaxBelow(g.t, g.top, ch[j]))
  }

  // The first n separators are the maxima of their children.
  ghost predicate KeyedUpTo(page: Page, g: Model, n: nat)
    requires n <= page.count <= |page.slots|
  {
    forall j | 0 <= j < n :: Children(page)[j] in g.t && page.slots[j].key == MaxBelow(g.t, g.top, Children(page)[j])
  }

  ghost predicate Keyed(c: Caps, page: Page, g: Model, h: nat)
    requires Sized(c, page) && page.count <= c.innerMax + 1
  {
    Ordered(c, page, g, h) && KeyedUpTo(page, g, page.count)
  }

  // Child x belongs at position pos among the children ch.
  ghost predicate Fits(g: Model, ch: seq<nat>, x: nat, pos: nat) {
    && x in g.t && pos <= |ch|
    && (forall j | 0 <= j < |ch| :: ch[j] in g.t)
    && (forall j | 0 <= j < pos :: MaxBelow(g.t, g.top, ch[j]) < MaxBelow(g.t, g.top, x))
    && (forall j | pos <= j < |ch| :: MaxBelow(g.t, g.top, x) < MaxBelow(g.t, g.top, ch[j]))
  }

  // Internal page p can receive child x of height h at position pos.
  ghost predicate CanPlace(c: Caps, s: seq<Page>, g: Model, p: nat, x: nat, h: nat, pos: nat) {
    && TreeOk(g.t, g.top)
    && p < |s| && Sized(c, s[p])
    && s[p].nodeType == INTERNAL && s[p].count <= c.innerMax
    && (s[p].link == INVALID_PAGE_NUM ==> s[p].count == 0)
    && (p in g.t ==> h < g.t[p].ht)
    && x in g.t && g.t[x].ht == h && x < INVALID_PAGE_NUM
    && SpineOk(s, g, h)
    && Keyed(c, s[p], g, h)
    && Fits(g, Children(s[p]), x, pos)
  }

  // The effect of lines 269-283 of internal_node_insert on a page with room and a right child.
  ghost predicate PlacedAt(page: Page, page': Page, x: nat, xMax: Key, rightMax: Key, index: nat)
    requires page.count < |page.slots|
  {
    && |page'.slots| == |page.slots| && index <= page.count
    && page' == page.(count := page.count + 1, link := page'.link, slots := page'.slots)
    && page'.link == (if xMax > rightMax then x else page.link)
    && if xMax > rightMax then
         && page'.slots[page.count] == Slot(page.link, rightMax)
         && forall j | 0 <= j < page.count :: page'.slots[j] == page.slots[j]
       else
         forall j {:trigger page'.slots[j]} | 0 <= j <= page.count ::
           page'.slots[j] == if j < index then page.slots[j]
                             else if j == index then Slot(x, xMax) else page.slots[j - 1]
  }

  // The page after child x went in at position pos.
  ghost predicate Placed(c: Caps, g: Model, was: Page, page: Page, x: nat, h: nat, pos: nat) {
    && Sized(c, was) && Sized(c, page)
    && was.count <= page.count <= c.innerMax
    && page.link != INVALID_PAGE_NUM
    && page == was.(count := page.count, link := page.link, slots := page.slots)
    && pos <= |Children(was)|
    && Children(page) == InsertAt(Children(was), pos, x)
    && Keyed(c, page, g, h)
  }

  // ------------------------------------------------------------------
  // A node p of the tree whose page still lacks its child number pos, page x; x may name any page as its parent

  ghost predicate Pending(c: Caps, s: seq<Page>, g: Model, p: nat, x: nat, pos: nat) {
    && TreeOk(g.t, g.top)
    && FanOk(g.t, c.innerMax, p)
    && |s| <= FILE_PAGES_NUM
    && g.t.Keys == PageNumbers(|s|)
    && (forall q {:trigger PageOk(c, s, g, q)} | q in g.t && q != p && q != x :: PageOk(c, s, g, q))
    && x < |s| && BodyOk(c, s[x], g, x)
    && p in g.t && p < |s| && g.t[p].ht > 0
    && 0 < pos < |g.t[p].kids| && g.t[p].kids[pos] == x && 3 <= |g.t[p].kids|
    && Lacking(c, s[p], g, p, pos)
  }

  // The separators that are still there once the page is divided, if it is full: the lower half.
  function Lasting(c: Caps, page: Page): nat {
    if page.count < c.innerMax then page.count else c.innerMax / 2
  }

  ghost predicate Lacking(c: Caps, page: Page, g: Model, p: nat, pos: nat)
    requires p in g.t && pos < |g.t[p].kids|
  {
    && Sized(c, page)
    && (page.isRoot <==> p == 0)
    && (p != 0 ==> page.parent == g.t[p].parent)
    && page.nodeType == INTERNAL
    && page.count <= c.innerMax && page.link != INVALID_PAGE_NUM
    && Children(page) == RemoveAt(g.t[p].kids, pos)
    && ExactUpTo(page, g.t, Lasting(c, page))
  }

  // The first n separators are the ends of their children's ranges.
  ghost predicate ExactUpTo(page: Page, t: Nodes, n: nat)
    requires n <= page.count <= |page.slots|
  {
    forall j | 0 <= j < n :: Children(page)[j] in t && page.slots[j].key == t[Children(page)[j]].hi
  }

  lemma PendingSpine(c: Caps, s: seq<Page>, g: Model, p: nat, x: nat, pos: nat)
    requires Pending(c, s, g, p, x, pos)
    ensures SpineOk(s, g, g.t[p].ht - 1)
  {
    forall q {:trigger SpinePage(s, g, q)} | q in g.t && g.t[q].ht <= g.t[p].ht - 1 ensures SpinePage(s, g, q) {
      if q != x {
        PageOkSpine(c, s, g, q);
      }
    }
  }

  lemma KidInTree(g: Model, p: nat, j: nat)
    requires TreeOk(g.t, g.top) && p in g.t && j < |g.t[p].kids|
    ensures g.t[p].kids[j] in g.t && g.t[g.t[p].kids[j]].ht + 1 == g.t[p].ht
  {
    assert NodeOk(g.t, g.top, p);
    assert KidOk(g.t, p, j);
  }

  // Leaving out child pos leaves the children ascending, and it fits in at pos.
  lemma LackingOrdered(c: Caps, page: Page, g: Model, p: nat, pos: nat)
    requires TreeOk(g.t, g.top) && p in g.t && g.t[p].ht > 0
    requires pos < |g.t[p].kids| && Sized(c, page) && page.count <= c.innerMax
    requires Children(page) == RemoveAt(g.t[p].kids, pos)
    ensures Ordered(c, page, g, g.t[p].ht - 1)
    ensures Fits(g, Children(page), g.t[p].kids[pos], pos)
    ensures forall j | 0 <= j < |Children(page)| - 1 :: Children(page)[j] in g.t && g.t[Children(page)[j]].hi < INF
  {
    var h := g.t[p].ht - 1;
    var kids, ch := g.t[p].kids, Children(page);
    KidInTree(g, p, pos);
    forall j | 0 <= j < |ch| ensures ch[j] in g.t && g.t[ch[j]].ht == h {
      KidInTree(g, p, if j < pos then j else j + 1);
    }
    forall i, j | 0 <= i < j < |ch|
      ensures MaxBelow(g.t, g.top, ch[i]) < MaxBelow(g.t, g.top, ch[j]) && g.t[ch[i]].hi < INF
    {
      var i', j' := if i < pos then i else i + 1, if j < pos then j else j + 1;
      MaximaAscend(g.t, g.top, p, i', j');
      KidsAscend(g.t, g.top, p, i', j');
    }
    forall j | 0 <= j < pos ensures MaxBelow(g.t, g.top, ch[j]) < MaxBelow(g.t, g.top, kids[pos]) {
      MaximaAscend(g.t, g.top, p, j, pos);
    }
    forall j | pos <= j < |ch| ensures MaxBelow(g.t, g.top, kids[pos]) < MaxBelow(g.t, g.top, ch[j]) {
      MaximaAscend(g.t, g.top, p, pos, j + 1);
    }
    forall j | 0 <= j < |ch| - 1 ensures g.t[ch[j]].hi < INF {
      assert MaxBelow(g.t, g.top, ch[j]) < MaxBelow(g.t, g.top, ch[|ch| - 1]);
    }
  }

  // The separators of a page that lacks a child, as far as they last.
  lemma LackingKeyed(c: Caps, page: Page, g: Model, p: nat, pos: nat)
    requires TreeOk(g.t, g.top) && p in g.t && g.t[p].ht > 0
    requires pos < |g.t[p].kids| && Lacking(c, page, g, p, pos)
    ensures Ordered(c, page, g, g.t[p].ht - 1)
    ensures KeyedUpTo(page, g, Lasting(c, page))
    ensures Fits(g, Children(page), g.t[p].kids[pos], pos)
  {
    LackingOrdered(c, page, g, p, pos);
  }

  lemma PendingPlace(c: Caps, s: seq<Page>, g: Model, p: nat, x: nat, pos: nat)
    requires Pending(c, s, g, p, x, pos) && s[p].count < c.innerMax
    ensures CanPlace(c, s, g, p, x, g.t[p].ht - 1, pos)
  {
    PendingSpine(c, s, g, p, x, pos);
    KidInTree(g, p, pos);
    LackingKeyed(c, s[p], g, p, pos);
  }
}
