/**
 The table and its cursors, as src/storage/btree.cpp has them: methods that overwrite a flat store of pages.

 A ghost field holds the tree and the rows that the pages stand for. Each operation is proved against it: searching and
 scanning read it off, and insertion, through any cascade of splits, adds one row to it.
 */
module BTreeTable {
  import opened Sequences
  import opened BTreeShape
  import opened BTreePages
  import opened BTreePlacing
  import opened BTreeSplitting
  import opened BTreeRaising
  import opened BTreeRoom
  import opened BTreeLeaves
  import BTreeCapacity

  class Table {
    const caps: Caps
    var pages: seq<Page>
    ghost var g: Model

    ghost predicate Valid()
      reads this
    {
      TableOk(caps, pages, g)
    }

    // ----------------------------------------------------------------
    // Reading

    // The largest key below page n.
    method GetNodeMaxKey(n: nat, ghost h: nat) returns (k: Key)
      requires n < |pages|
      requires pages[n].nodeType == LEAF ==> pages[n].count <= |pages[n].cells|
      requires pages[n].nodeType == INTERNAL ==>
                 && TreeOk(g.t, g.top) && SpineOk(pages, g, h)
                 && pages[n].link in g.t && g.t[pages[n].link].ht <= h
      ensures pages[n].nodeType == LEAF ==>
                k == if pages[n].count == 0 then 0 else pages[n].cells[pages[n].count - 1].key
      ensures pages[n].nodeType == INTERNAL ==> k == MaxBelow(g.t, g.top, pages[n].link)
      ensures TreeOk(g.t, g.top) && SpineOk(pages, g, h) && n in g.t && g.t[n].ht <= h ==>
                k == MaxBelow(g.t, g.top, n)
      decreases if pages[n].nodeType == LEAF then 0 else g.t[pages[n].link].ht + 1
    {
      if TreeOk(g.t, g.top) && SpineOk(pages, g, h) && n in g.t && g.t[n].ht <= h {
        assert SpinePage(pages, g, n);
        MaxBelowInRange(g.t, g.top, n);
      }
      if pages[n].nodeType == LEAF {
        var numCells := pages[n].count;
        if numCells == 0 {
          return 0;
        }
        return pages[n].cells[numCells - 1].key;
      }
      var right := pages[n].link;
      assert SpinePage(pages, g, right);
      MaxBelowInRange(g.t, g.top, right);
      k := GetNodeMaxKey(right, h);
    }

    // The first separator not below the key, or the number of separators; in a page out of order, some index.
    static method InternalNodeFindChild(page: Page, key: Key) returns (ans: nat)
      requires page.count <= |page.slots|
      ensures ans <= page.count
      ensures SlotsAscend(page) ==> FirstNotBelow(page, key, ans)
    {
      var numKeys := page.count;
      ans := numKeys;
      if numKeys != 0 {
        var minIndex: nat, maxIndex: nat := 0, numKeys - 1;
        while minIndex <= maxIndex
          invariant minIndex <= ans == maxIndex + 1 <= numKeys
          invariant SlotsAscend(page) ==> forall j | 0 <= j < minIndex :: page.slots[j].key < key
          invariant SlotsAscend(page) ==> forall j | maxIndex < j < numKeys :: key <= page.slots[j].key
          decreases ans - minIndex
        {
          var index := (minIndex + maxIndex) / 2;
          var keyToRight := page.slots[index].key;
          if key <= keyToRight {
            ans := index;
            if index == 0 {
              break;
            }
            maxIndex := index - 1;
          } else {
            minIndex := index + 1;
          }
        }
      }
    }

    // ----------------------------------------------------------------
    // Placing a child into an internal node with room

    // Shift the slots from `index` on by one and write the child there.
    method PutBefore(p: nat, child: nat, childMax: Key, index: nat)
      requires p < |pages| && Sized(caps, pages[p]) && child < INVALID_PAGE_NUM
      requires index < pages[p].count <= caps.innerMax
      modifies this`pages
      ensures |pages| == |old(pages)| && pages == old(pages)[p := pages[p]]
      ensures pages[p] == old(pages[p]).(slots := pages[p].slots)
      ensures Sized(caps, pages[p])
      ensures forall j | 0 <= j < pages[p].count ::
                pages[p].slots[j] == if j < index then old(pages[p].slots[j])
                                     else if j == index then Slot(child, childMax)
                                     else old(pages[p].slots[j - 1])
    {
      ghost var was := pages[p].slots;
      var i := pages[p].count - 1;
      while i > index
        invariant |pages| == |old(pages)| && pages == old(pages)[p := pages[p]]
        invariant pages[p] == old(pages[p]).(slots := pages[p].slots)
        invariant index <= i < pages[p].count
        invariant Sized(caps, pages[p])
        invariant forall j | 0 <= j <= i :: pages[p].slots[j] == was[j]
        invariant forall j | i < j < pages[p].count :: pages[p].slots[j] == was[j - 1]
      {
        pages := pages[p := pages[p].(slots := pages[p].slots[i := pages[p].slots[i - 1]])];
        i := i - 1;
      }
      pages := pages[p := pages[p].(slots := pages[p].slots[index := Slot(child, childMax)])];
    }

    // Lines 259-283 of internal_node_insert: the node has room.
    method PlaceChild(p: nat, child: nat, childMax: Key, index: nat, ghost h: nat, ghost pos: nat)
      requires CanPlace(caps, pages, g, p, child, h, pos) && pages[p].count < caps.innerMax
      requires childMax == MaxBelow(g.t, g.top, child)
      requires FirstNotBelow(pages[p], childMax, index)
      modifies this`pages
      ensures |pages| == |old(pages)| && pages == old(pages)[p := pages[p]]
      ensures Placed(caps, g, old(pages[p]), pages[p], child, h, pos)
    {
      var right := pages[p].link;
      if right == INVALID_PAGE_NUM {
        PlacedAlone(caps, pages, g, p, child, h, pos);
        pages := pages[p := pages[p].(link := child)];
        return;
      }
      assert right == Children(pages[p])[pages[p].count] && SpinePage(pages, g, right);
      MaxBelowInRange(g.t, g.top, right);
      ghost var was := pages[p];
      var rightMax := GetNodeMaxKey(right, h);
      PlaceBeside(p, child, childMax, index, rightMax);
      PlacedWhereItFits(caps, g, was, pages[p], child, childMax, rightMax, index, h, pos);
    }

    // Lines 269-283, whatever the order of the separators.
    method PlaceBeside(p: nat, child: nat, childMax: Key, index: nat, rightMax: Key)
      requires p < |pages| && Sized(caps, pages[p]) && child < INVALID_PAGE_NUM
      requires index <= pages[p].count < caps.innerMax && pages[p].link != INVALID_PAGE_NUM
      modifies this`pages
      ensures |pages| == |old(pages)| && pages == old(pages)[p := pages[p]]
      ensures Sized(caps, pages[p]) && PlacedAt(old(pages)[p], pages[p], child, childMax, rightMax, index)
    {
      var numKeys := pages[p].count;
      pages := pages[p := pages[p].(count := numKeys + 1)];
      if childMax > rightMax {
        pages := pages[p := pages[p].(slots := pages[p].slots[numKeys := Slot(pages[p].link, rightMax)])];
        pages := pages[p := pages[p].(link := child)];
      } else {
        PutBefore(p, child, childMax, index);
      }
    }

    // ----------------------------------------------------------------
    // Allocation

    // Pager::get_page as far as it concerns the table: the first unused page becomes used.
    method GetPage(n: nat)
      requires n <= |pages| && n < FILE_PAGES_NUM
      modifies this`pages
      ensures pages == old(pages) + if n == |old(pages)| then [ZeroPage(caps)] else []
    {
      if n == |pages| {
        pages := pages + [ZeroPage(caps)];
      }
    }

    // A child page number of an internal node; the source ends the program outside these conditions.
    static method InternalNodeChild(page: Page, j: nat) returns (k: nat)
      requires page.count <= |page.slots|
      requires j <= page.count && (j == page.count ==> page.link != INVALID_PAGE_NUM)
      requires j < page.count ==> page.slots[j].child != INVALID_PAGE_NUM
      ensures k == Children(page)[j]
    {
      if j == page.count {
        k := page.link;
      } else {
        k := page.slots[j].child;
      }
    }

    static function InitializeInternal(page: Page): Page {
      page.(nodeType := INTERNAL, isRoot := false, count := 0, link := INVALID_PAGE_NUM)
    }

    static function InitializeLeaf(page: Page): Page {
      page.(nodeType := LEAF, isRoot := false, count := 0, link := 0)
    }

    // ----------------------------------------------------------------
    // Inserting a child into an internal node, splitting it when full

    // The distance to the root of a node that has to be split, 0 when there is room.
    ghost function Distance(p: nat): nat
      reads this
    {
      if p < |pages| && pages[p].count < caps.innerMax then 0
      else if p in g.t && 0 in g.t && g.t[p].ht <= g.t[0].ht then g.t[0].ht - g.t[p].ht + 1
      else 0
    }

    method InternalNodeInsert(p: nat, child: nat, ghost h: nat, ghost pos: nat)
      requires p < |pages|
      requires pages[p].count < caps.innerMax ==> CanPlace(caps, pages, g, p, child, h, pos)
      requires pages[p].count >= caps.innerMax ==>
                 Pending(caps, pages, g, p, child, pos) && |g.t[p].kids| == caps.innerMax + 2 && g.t[p].ht == h + 1
                 && |pages| + PagesToSettle(g, caps.innerMax, p) <= FILE_PAGES_NUM
      modifies this`pages, this`g
      ensures old(pages[p].count) < caps.innerMax ==>
                && g == old(g) && |pages| == |old(pages)| && pages == old(pages)[p := pages[p]]
                && Placed(caps, g, old(pages[p]), pages[p], child, h, pos)
      ensures old(pages[p].count) >= caps.innerMax ==>
                && Settled(caps, pages, old(g), g, h)
                && |pages| == |old(pages)| + old(PagesToSettle(g, caps.innerMax, p))
      decreases Distance(p), 1
    {
      LemmaPlaceReady(p, child, h, pos);
      var childMax := GetNodeMaxKey(child, h);
      var index := InternalNodeFindChild(pages[p], childMax);
      if pages[p].count >= caps.innerMax {
        InternalNodeSplitAndInsert(p, child, pos);
        return;
      }
      PlaceChild(p, child, childMax, index, h, pos);
    }

    lemma LemmaPlaceReady(p: nat, child: nat, h: nat, pos: nat)
      requires p < |pages|
      requires pages[p].count < caps.innerMax ==> CanPlace(caps, pages, g, p, child, h, pos)
      requires pages[p].count >= caps.innerMax ==> Pending(caps, pages, g, p, child, pos) && g.t[p].ht == h + 1
      ensures Sized(caps, pages[p]) && pages[p].count <= caps.innerMax
      ensures pages[p].count < caps.innerMax ==> SlotsAscend(pages[p])
      ensures TreeOk(g.t, g.top) && child in g.t && g.t[child].ht <= h
      ensures SpineOk(pages, g, h) && SpinePage(pages, g, child)
      ensures pages[child].nodeType == INTERNAL ==> pages[child].link in g.t && g.t[pages[child].link].ht <= h
    {
      if pages[p].count >= caps.innerMax {
        PendingSpine(caps, pages, g, p, child, pos);
        KidInTree(g, p, pos);
      }
      assert SpinePage(pages, g, child);
      MaxBelowInRange(g.t, g.top, child);
    }

    // Lines 202-225: the right child and the slots above the middle move to the empty node n.
    method MoveUpperHalf(o: nat, n: nat, ghost h: nat)
      requires CanHalve(caps, pages, g, o, n, h)
      modifies this`pages, this`g
      ensures g == old(g)
      ensures Halved(caps, old(pages), pages, g, o, n, h, Children(old(pages)[o]), caps.innerMax / 2 + 1)
      decreases 0, 4
    {
      ghost var s0, g0 := pages, g;
      MoveRightChild(o, n, h);
      MoveSlots(o, n, h, s0, g0);
      ghost var s := pages;
      CloseLowerHalf(o);
      MovingEnd(caps, s0, s, pages, g0, o, n, h);
    }

    method MoveSlots(o: nat, n: nat, ghost h: nat, ghost s0: seq<Page>, ghost g0: Model)
      requires CanHalve(caps, s0, g0, o, n, h)
      requires g == g0 && Moving(caps, s0, pages, g0, o, n, h, caps.innerMax - 1)
      modifies this`pages, this`g
      ensures g == g0 && Moving(caps, s0, pages, g0, o, n, h, caps.innerMax / 2)
      decreases 0, 3
    {
      for i := caps.innerMax downto caps.innerMax / 2 + 1
        invariant g == g0 && Moving(caps, s0, pages, g0, o, n, h, i - 1)
      {
        MoveChild(o, n, i, h, s0, g0);
      }
    }

    method MoveRightChild(o: nat, n: nat, ghost h: nat)
      requires CanHalve(caps, pages, g, o, n, h)
      modifies this`pages, this`g
      ensures g == old(g)
      ensures Moving(caps, old(pages), pages, g, o, n, h, caps.innerMax - 1)
      decreases 0, 2
    {
      ghost var s0 := pages;
      ChildFacts(caps, s0, g, o, n, h);
      var cur := pages[o].link;
      assert cur == Children(s0[o])[caps.innerMax];
      InternalNodeInsert(n, cur, h, 0);
      ghost var page := pages[n];
      pages := pages[cur := pages[cur].(parent := n)];
      pages := pages[o := pages[o].(link := INVALID_PAGE_NUM)];
      MovingStart(caps, s0, pages, g, o, n, h, page);
    }

    method MoveChild(o: nat, n: nat, i: nat, ghost h: nat, ghost s0: seq<Page>, ghost g0: Model)
      requires g == g0 && CanHalve(caps, s0, g0, o, n, h) && 0 < i < caps.innerMax
      requires Moving(caps, s0, pages, g0, o, n, h, i)
      modifies this`pages, this`g
      ensures g == g0 && Moving(caps, s0, pages, g0, o, n, h, i - 1)
      decreases 0, 2
    {
      ghost var s := pages;
      ChildFacts(caps, s0, g, o, n, h);
      var cur := InternalNodeChild(pages[o], i);
      assert cur == Children(s0[o])[i];
      MovingPlace(caps, s0, s, g, o, n, h, i);
      InternalNodeInsert(n, cur, h, 0);
      ghost var page := pages[n];
      pages := pages[cur := pages[cur].(parent := n)];
      pages := pages[o := pages[o].(count := pages[o].count - 1)];
      MovingStep(caps, s0, s, pages, g, o, n, h, i, page);
    }

    // Lines 224-225: the last child of the old node becomes its right child.
    method CloseLowerHalf(o: nat)
      requires o < |pages| && Sized(caps, pages[o]) && pages[o].count == caps.innerMax / 2 + 1
      modifies this`pages
      ensures var page := old(pages)[o];
              pages == old(pages)[o := page.(count := caps.innerMax / 2, link := page.slots[caps.innerMax / 2].child)]
    {
      var last := InternalNodeChild(pages[o], pages[o].count - 1);
      pages := pages[o := pages[o].(link := last)];
      pages := pages[o := pages[o].(count := pages[o].count - 1)];
    }

    // Lines 202-232: divide the children of o and the pending child x between o and n.
    method DivideNode(o: nat, n: nat, x: nat, childMax: Key, ghost pos: nat)
      requires SplitReady(caps, pages, g, o, n, x, pos) && childMax == MaxBelow(g.t, g.top, x)
      modifies this`pages, this`g
      ensures g == old(g)
      ensures Divided(caps, old(pages), pages, g, o, n, g.t[o].ht - 1, g.t[o].kids, x, Cut(caps, pos))
      decreases 0, 6
    {
      ReadyPlace(caps, pages, g, o, n, x, pos);
      DivideChildren(o, n, x, childMax, g.t[o].ht - 1, g.t[o].kids, pos);
    }

    method DivideChildren(o: nat, n: nat, x: nat, childMax: Key, ghost h: nat, ghost kids: seq<nat>, ghost pos: nat)
      requires CanDivide(caps, pages, g, o, n, h, kids, pos) && x == kids[pos] && childMax == MaxBelow(g.t, g.top, x)
      modifies this`pages, this`g
      ensures g == old(g)
      ensures Divided(caps, old(pages), pages, g, o, n, h, kids, x, Cut(caps, pos))
      decreases 0, 5
    {
      ghost var s0 := pages;
      MoveUpperHalf(o, n, h);
      HalvedParts(caps, s0, pages, g, o, n, h, RemoveAt(kids, pos), caps.innerMax / 2 + 1);
      PlaceInHalf(o, n, x, childMax, h, kids, pos, s0);
    }

    // The same, with what it makes of the tree.
    method DivideTree(o: nat, n: nat, x: nat, childMax: Key, ghost pos: nat) returns (ghost g': Model, ghost m: Key)
      requires SplitReady(caps, pages, g, o, n, x, pos) && childMax == MaxBelow(g.t, g.top, x)
      modifies this`pages, this`g
      ensures g == old(g)
      ensures DivisionDone(caps, old(pages), pages, g, g', o, n, m, Cut(caps, pos))
      decreases 0, 7
    {
      ghost var s := pages;
      DivideNode(o, n, x, childMax, pos);
      m := DivideDone(caps, s, pages, g, o, n, x, pos);
      g' := g.(t := Split(g.t, o, n, m, Cut(caps, pos)));
    }

    // Lines 227-232.
    method PlaceInHalf(o: nat, n: nat, x: nat, childMax: Key,
                       ghost h: nat, ghost kids: seq<nat>, ghost pos: nat, ghost s0: seq<Page>)
      requires CanPlaceInHalf(caps, s0, g, o, n, h, kids, pos) && kids[pos] == x
      requires Parts(caps, s0, pages, g, o, n, h, RemoveAt(kids, pos), caps.innerMax / 2 + 1)
      requires childMax == MaxBelow(g.t, g.top, x)
      modifies this`pages, this`g
      ensures g == old(g)
      ensures Divided(caps, s0, pages, g, o, n, h, kids, x, Cut(caps, pos))
      decreases 0, 3
    {
      ghost var s := pages;
      PartsPlace(caps, s0, s, g, o, n, h, kids, pos);
      var dest := InsertIntoHalf(o, n, x, childMax, h, PosInHalf(caps, pos));
      ghost var page := pages[dest];
      assert pages[x] == s[x];
      pages := pages[x := pages[x].(parent := dest)];
      PartsPlaced(caps, s0, s, pages, g, o, n, h, kids, x, pos, dest, page);
    }

    method InsertIntoHalf(o: nat, n: nat, x: nat, childMax: Key, ghost h: nat, ghost pos: nat) returns (dest: nat)
      requires TreeOk(g.t, g.top) && SpineOk(pages, g, h) && o < |pages| && n < |pages|
      requires pages[o].nodeType == INTERNAL && pages[o].link in g.t && g.t[pages[o].link].ht == h
      requires o in g.t && h < g.t[o].ht
      requires pages[o].count < caps.innerMax && pages[n].count < caps.innerMax
      requires CanPlace(caps, pages, g, if childMax < MaxBelow(g.t, g.top, pages[o].link) then o else n, x, h, pos)
      modifies this`pages, this`g
      ensures g == old(g)
      ensures dest < |pages| && dest == if childMax < MaxBelow(g.t, g.top, old(pages)[o].link) then o else n
      ensures |pages| == |old(pages)| && pages == old(pages)[dest := pages[dest]]
      ensures Placed(caps, g, old(pages)[dest], pages[dest], x, h, pos)
      decreases 0, 2
    {
      var maxAfterSplit := GetNodeMaxKey(o, h);
      dest := if childMax < maxAfterSplit then o else n;
      InternalNodeInsert(dest, x, h, pos);
    }

    // Lines 358-366: the children of the moved root content point to its new page l.
    method Reparent(l: nat)
      requires 0 < l < |pages| <= FILE_PAGES_NUM
      requires Sized(caps, pages[l]) && pages[l].count <= caps.innerMax && pages[l].link != INVALID_PAGE_NUM
      requires forall j | 0 <= j < |Children(pages[l])| :: Children(pages[l])[j] < l
      modifies this`pages
      ensures |pages| == |old(pages)|
      ensures forall q | 0 <= q < |pages| ::
                pages[q] == if q in Children(old(pages)[l]) then old(pages)[q].(parent := l) else old(pages)[q]
    {
      ghost var s0 := pages;
      ghost var ch := Children(pages[l]);
      var internalRightChild := pages[l].link;
      var childs := pages[l].count;
      var i := 0;
      while i < childs
        invariant 0 <= i <= childs
        invariant |pages| == |s0| && pages[l] == s0[l]
        invariant forall q | 0 <= q < |pages| ::
                    pages[q] == if q in Lower(ch, i) then s0[q].(parent := l) else s0[q]
      {
        var child := InternalNodeChild(pages[l], i);
        assert child == ch[i];
        pages := pages[child := pages[child].(parent := l)];
        assert forall q :: q in Lower(ch, i + 1) <==> q in Lower(ch, i) || q == child by {
          LowerStep(ch, i);
        }
        i := i + 1;
      }
      pages := pages[internalRightChild := pages[internalRightChild].(parent := l)];
      assert ch[childs] == internalRightChild;
      LowerStep(ch, childs);
      assert Lower(ch, childs + 1) == ch;
    }

    // The root's content moves to a fresh page; the root becomes an internal node over that page and `right`.
    method CreateNewRoot(right: nat, ghost h: nat)
      requires 0 < right <= |pages| && Sized(caps, pages[0])
      requires pages[0].nodeType == LEAF ==>
                 right < |pages| < FILE_PAGES_NUM && 0 < pages[0].count <= caps.leafMax
      requires pages[0].nodeType == INTERNAL ==>
                 && right == |pages| && |pages| + 2 <= FILE_PAGES_NUM
                 && pages[0].count <= caps.innerMax && pages[0].link != INVALID_PAGE_NUM
                 && (forall j | 0 <= j < |Children(pages[0])| :: 0 < Children(pages[0])[j] < |pages|)
      requires pages[0].nodeType == INTERNAL ==>
                 && TreeOk(g.t, g.top) && SpineOk(pages, g, h) && g.t.Keys == PageNumbers(|pages|)
                 && pages[0].link in g.t && g.t[pages[0].link].ht <= h < g.t[0].ht
      modifies this`pages
      ensures old(pages)[0].nodeType == INTERNAL ==> NewRoot(caps, old(pages), pages, g)
      ensures old(pages)[0].nodeType == LEAF ==> NewRootOverLeaf(caps, old(pages), pages, right)
    {
      var left := CopyRoot(right, h);
      if pages[left].nodeType == INTERNAL {
        SpineFrame(old(pages), pages, g, h);
      }
      FormRoot(left, right, h);
    }

    // Lines 334-367.
    method CopyRoot(right: nat, ghost h: nat) returns (left: nat)
      requires 0 < right <= |pages| && Sized(caps, pages[0])
      requires pages[0].nodeType == LEAF ==> right < |pages| < FILE_PAGES_NUM
      requires pages[0].nodeType == INTERNAL ==>
                 && right == |pages| && |pages| + 2 <= FILE_PAGES_NUM
                 && pages[0].count <= caps.innerMax && pages[0].link != INVALID_PAGE_NUM
                 && (forall j | 0 <= j < |Children(pages[0])| :: 0 < Children(pages[0])[j] < |pages|)
      modifies this`pages
      ensures old(pages)[0].nodeType == INTERNAL ==>
                left == |old(pages)| + 1 && RootCopied(caps, old(pages), pages)
      ensures old(pages)[0].nodeType == LEAF ==>
                left == |old(pages)| && pages == old(pages) + [old(pages)[0].(isRoot := false)]
    {
      ghost var s0 := pages;
      GetPage(right);
      left := |pages|;
      GetPage(left);
      if pages[0].nodeType == INTERNAL {
        pages := pages[right := InitializeInternal(pages[right])];
        pages := pages[left := InitializeInternal(pages[left])];
      }
      pages := pages[left := pages[0]];
      pages := pages[left := pages[left].(isRoot := false)];
      if pages[left].nodeType == INTERNAL {
        assert Children(pages[left]) == Children(s0[0]);
        Reparent(left);
      }
    }

    // Lines 369-377.
    method FormRoot(left: nat, right: nat, ghost h: nat)
      requires 0 < left < |pages| && 0 < right < |pages| && left != right
      requires Sized(caps, pages[0]) && left != INVALID_PAGE_NUM
      requires pages[left].nodeType == LEAF ==> 0 < pages[left].count <= |pages[left].cells|
      requires pages[left].nodeType == INTERNAL ==>
                 && TreeOk(g.t, g.top) && SpineOk(pages, g, h)
                 && pages[left].link in g.t && g.t[pages[left].link].ht <= h < g.t[0].ht
                 && (left in g.t ==> g.t[left].ht > h) && (right in g.t ==> g.t[right].ht > h)
      modifies this`pages
      ensures |pages| == |old(pages)|
      ensures Sized(caps, pages[0])
      ensures pages[0] ==
              old(pages)[0].(nodeType := INTERNAL, isRoot := true, count := 1, link := right, slots := pages[0].slots)
      ensures pages[0].slots[0].child == left
      ensures var l := old(pages)[left];
              pages[0].slots[0].key ==
              if l.nodeType == LEAF then l.cells[l.count - 1].key else MaxBelow(g.t, g.top, l.link)
      ensures forall q | 0 < q < |pages| ::
                pages[q] == if q == left || q == right then old(pages)[q].(parent := 0) else old(pages)[q]
    {
      pages := pages[0 := InitializeInternal(pages[0])];
      pages := pages[0 := pages[0].(isRoot := true)];
      pages := pages[0 := pages[0].(count := 1)];
      var stale := InternalNodeChild(pages[0], 0);
      pages := pages[0 := pages[0].(slots := pages[0].slots[0 := pages[0].slots[0].(child := left)])];
      if pages[left].nodeType == INTERNAL {
        SpineFrame(old(pages), pages, g, h);
      }
      var leftChildMaxKey := GetNodeMaxKey(left, h);
      pages := pages[0 := pages[0].(slots := pages[0].slots[0 := pages[0].slots[0].(key := leftChildMaxKey)])];
      pages := pages[0 := pages[0].(link := right)];
      pages := pages[left := pages[left].(parent := ROOT_PAGE_NUM)];
      pages := pages[right := pages[right].(parent := ROOT_PAGE_NUM)];
    }

    // Line 234: the separator of node o in page r, found by the old largest key of o, becomes its new largest key.
    method LowerSeparator(r: nat, o: nat, oldMax: Key, ghost h: nat) returns (newMax: Key, j: nat)
      requires r < |pages| && o < |pages| && Sized(caps, pages[r])
      requires pages[r].count <= caps.innerMax && SlotsAscend(pages[r])
      requires TreeOk(g.t, g.top) && SpineOk(pages, g, h)
      requires pages[o].nodeType == INTERNAL && pages[o].link in g.t && g.t[pages[o].link].ht <= h
      modifies this`pages
      ensures newMax == MaxBelow(g.t, g.top, old(pages)[o].link)
      ensures FirstNotBelow(old(pages)[r], oldMax, j)
      ensures |pages| == |old(pages)| && pages == old(pages)[r := pages[r]]
      ensures var page := old(pages)[r]; pages[r] == page.(slots := page.slots[j := page.slots[j].(key := newMax)])
    {
      newMax := GetNodeMaxKey(o, h);
      j := InternalNodeFindChild(pages[r], oldMax);
      pages := pages[r := pages[r].(slots := pages[r].slots[j := pages[r].slots[j].(key := newMax)])];
    }

    method InternalNodeSplitAndInsert(p: nat, child: nat, ghost pos: nat)
      requires Pending(caps, pages, g, p, child, pos) && |g.t[p].kids| == caps.innerMax + 2
      requires |pages| + PagesToSettle(g, caps.innerMax, p) <= FILE_PAGES_NUM
      modifies this`pages, this`g
      ensures Settled(caps, pages, old(g), g, old(g.t[p].ht) - 1)
      ensures |pages| == |old(pages)| + old(PagesToSettle(g, caps.innerMax, p))
      ensures SplitResult(old(g.t[p]), g.t, if p == 0 then |old(pages)| + 1 else p, |old(pages)|, Cut(caps, pos))
      decreases Distance(p), 0
    {
      ghost var h := g.t[p].ht - 1;
      PendingSpine(caps, pages, g, p, child, pos);
      LackingCovers(caps, pages[p], g, p, pos);
      KidInTree(g, p, pos);
      assert SpinePage(pages, g, child);
      MaxBelowInRange(g.t, g.top, child);
      assert NodeOk(g.t, g.top, p);
      var oldMax := GetNodeMaxKey(p, h);
      var childMax := GetNodeMaxKey(child, h);
      if pages[p].isRoot {
        SplitRoot(child, oldMax, childMax, pos);
      } else {
        SplitInner(p, child, oldMax, childMax, h, pos);
      }
    }

    // internal_node_split_and_insert on the root.
    method SplitRoot(child: nat, oldMax: Key, childMax: Key, ghost pos: nat)
      requires Pending(caps, pages, g, 0, child, pos) && |g.t[0].kids| == caps.innerMax + 2
      requires |pages| + 2 <= FILE_PAGES_NUM
      requires pages[0].link in g.t && oldMax == MaxBelow(g.t, g.top, pages[0].link)
      requires child in g.t && childMax == MaxBelow(g.t, g.top, child)
      modifies this`pages, this`g
      ensures Settled(caps, pages, old(g), g, old(g.t[0].ht) - 1)
      ensures |pages| == |old(pages)| + 2
      ensures SplitResult(old(g.t[0]), g.t, |old(pages)| + 1, |old(pages)|, Cut(caps, pos))
      decreases 0, 9
    {
      ghost var g0 := g;
      var newPageNum := |pages|;
      PrepareRoot(newPageNum, child, oldMax, pos);
      ghost var t1 := g.t;
      var oldPageNum := InternalNodeChild(pages[0], 0);
      ghost var m := DivideRoot(oldPageNum, newPageNum, child, oldMax, childMax, g0.t[0].ht - 1, pos);
      SameTransitive(g0.t, t1, g.t, g0.t[0].ht - 1);
    }

    method PrepareRoot(n: nat, child: nat, oldMax: Key, ghost pos: nat)
      requires Pending(caps, pages, g, 0, child, pos) && |g.t[0].kids| == caps.innerMax + 2
      requires |pages| + 2 <= FILE_PAGES_NUM && n == |pages|
      requires pages[0].link in g.t && oldMax == MaxBelow(g.t, g.top, pages[0].link)
      requires child in g.t
      modifies this`pages, this`g
      ensures g == old(g).(t := Grow(old(g.t), n + 1)) && |pages| == n + 2
      ensures SplitReady(caps, pages, g, n + 1, n, child, pos) && RootOver(caps, pages, g, n + 1, n, oldMax)
      ensures MaxBelow(g.t, g.top, child) == old(MaxBelow(g.t, g.top, child))
      ensures SameUpTo(old(g.t), g.t, old(g.t[0].ht) - 1)
      ensures g.t[n + 1] == old(g.t[0]).(parent := 0)
    {
      ghost var s0 := pages;
      RootChildren(caps, pages, g, child, pos);
      PendingSpine(caps, pages, g, 0, child, pos);
      CreateNewRoot(n, g.t[0].ht - 1);
      NewRootReady(caps, s0, pages, g, child, pos);
      g := g.(t := Grow(g.t, n + 1));
    }

    method DivideRoot(o: nat, n: nat, child: nat, oldMax: Key, childMax: Key, ghost h: nat, ghost pos: nat)
      returns (ghost m: Key)
      requires o in g.t && g.t[o].ht == h + 1
      requires SplitReady(caps, pages, g, o, n, child, pos) && RootOver(caps, pages, g, o, n, oldMax)
      requires childMax == MaxBelow(g.t, g.top, child)
      modifies this`pages, this`g
      ensures TableOk(caps, pages, g) && |pages| == |old(pages)|
      ensures NodeSplit(old(g), g, o, n, m, Cut(caps, pos))
      decreases 0, 8
    {
      ghost var s := pages;
      ghost var g';
      g', m := DivideTree(o, n, child, childMax, pos);
      FinishRoot(o, n, oldMax, g', m, h, Cut(caps, pos), s);
      g := g';
    }

    method FinishRoot(o: nat, n: nat, oldMax: Key, ghost g': Model, ghost m: Key, ghost h: nat, ghost cut: nat,
                      ghost s1: seq<Page>)
      requires RootOver(caps, s1, g, o, n, oldMax) && g.t[o].ht == h + 1
      requires DivisionDone(caps, s1, pages, g, g', o, n, m, cut)
      modifies this`pages
      ensures |pages| == |old(pages)| && TableOk(caps, pages, g')
    {
      ghost var s := pages;
      RootSearchable(caps, s1, s, g, g', o, n, oldMax, m, cut);
      ghost var newMax, j := LowerSeparator(0, o, oldMax, h);
      RootFinished(caps, s1, s, pages, g, g', o, n, oldMax, m, cut, j);
    }

    // internal_node_split_and_insert on a node other than the root, with line 238 before line 237: so the new node's
    // parent pointer stays exact.
    method SplitInner(p: nat, child: nat, oldMax: Key, childMax: Key, ghost h: nat, ghost pos: nat)
      requires p in g.t && g.t[p].ht == h + 1 && 0 in g.t && g.t[p].ht <= g.t[0].ht
      requires Pending(caps, pages, g, p, child, pos) && |g.t[p].kids| == caps.innerMax + 2 && p != 0
      requires |pages| + PagesToSettle(g, caps.innerMax, p) <= FILE_PAGES_NUM
      requires Covers(g.t, p, oldMax)
      requires child in g.t && childMax == MaxBelow(g.t, g.top, child)
      modifies this`pages, this`g
      ensures Settled(caps, pages, old(g), g, h)
      ensures |pages| == |old(pages)| + old(PagesToSettle(g, caps.innerMax, p))
      ensures SplitResult(old(g.t[p]), g.t, p, |old(pages)|, Cut(caps, pos))
      decreases g.t[0].ht - g.t[p].ht, 10
    {
      ghost var g0 := g;
      var r, n;
      ghost var g', m, j;
      r, n, g', m, j := DivideInner(p, child, oldMax, childMax, h, pos);
      PendingReparented(caps, pages, g', r, n, j + 1, pages[p].parent);
      pages := pages[n := pages[n].(parent := pages[p].parent)];
      g := g';
      InsertAndSettle(r, n, h + 1, j + 1);
      SettledAbove(caps, pages, g0, g', g, p, n, m, Cut(caps, pos));
    }

    // internal_node_split_and_insert up to the insertion into the parent, which lacks the new node then.
    method DivideInner(p: nat, child: nat, oldMax: Key, childMax: Key, ghost h: nat, ghost pos: nat)
      returns (r: nat, n: nat, ghost g': Model, ghost m: Key, ghost j: nat)
      requires p in g.t && g.t[p].ht == h + 1
      requires Pending(caps, pages, g, p, child, pos) && |g.t[p].kids| == caps.innerMax + 2 && p != 0
      requires |pages| + PagesToSettle(g, caps.innerMax, p) <= FILE_PAGES_NUM
      requires Covers(g.t, p, oldMax)
      requires child in g.t && childMax == MaxBelow(g.t, g.top, child)
      modifies this`pages, this`g
      ensures g == old(g) && n == |old(pages)| && |pages| == n + 1
      ensures r == g.t[p].parent && p < n && pages[p].parent == r
      ensures NodeSplit(g, g', p, n, m, Cut(caps, pos))
      ensures Pending(caps, pages, g', r, n, j + 1) && r in g'.t && g'.t[r].ht == h + 2
      ensures 0 in g'.t && g'.t[0].ht == g.t[0].ht && g'.t[r].ht <= g'.t[0].ht
      ensures PagesToSettle(g', caps.innerMax, r) + 1 == PagesToSettle(g, caps.innerMax, p)
      decreases 0, 8
    {
      r, n := PrepareInner(p, child, pos);
      ghost var s1 := pages;
      g', m := DivideTree(p, n, child, childMax, pos);
      SettleAfterSplit(g, p, n, m, Cut(caps, pos), caps.innerMax);
      j := RaiseInner(p, n, r, oldMax, g', m, h, Cut(caps, pos), s1);
    }

    // Lines 194-199.
    method PrepareInner(p: nat, child: nat, ghost pos: nat) returns (r: nat, n: nat)
      requires Pending(caps, pages, g, p, child, pos) && |g.t[p].kids| == caps.innerMax + 2 && p != 0
      requires |pages| + PagesToSettle(g, caps.innerMax, p) <= FILE_PAGES_NUM
      modifies this`pages
      ensures n == |old(pages)| && |pages| == n + 1 && forall q | 0 <= q < n :: pages[q] == old(pages)[q]
      ensures SplitReady(caps, pages, g, p, n, child, pos)
      ensures r in g.t && r == g.t[p].parent && PageOk(caps, pages, g, r) && 2 <= |g.t[r].kids| <= caps.innerMax + 1
      ensures PagesToSettle(g, caps.innerMax, p) == 1 + PagesToGain(g, caps.innerMax, r)
    {
      ghost var s0 := pages;
      assert NodeOk(g.t, g.top, p);
      ListedByParent(g.t, g.top, g.t[p].parent, p);
      r := pages[p].parent;
      n := |pages|;
      GetPage(n);
      pages := pages[n := InitializeInternal(pages[n])];
      PendingReady(caps, s0, pages, g, p, child, pos);
    }

    // Line 234.
    method RaiseInner(o: nat, n: nat, r: nat, oldMax: Key,
                      ghost g': Model, ghost m: Key, ghost h: nat, ghost cut: nat, ghost s1: seq<Page>)
      returns (ghost j: nat)
      requires DivisionDone(caps, s1, pages, g, g', o, n, m, cut) && r == g.t[o].parent && PageOk(caps, s1, g, r)
      requires g.t[o].ht == h + 1 && Covers(g.t, o, oldMax) && 2 <= |g.t[r].kids| <= caps.innerMax + 1
      modifies this`pages
      ensures |pages| == |old(pages)| && o < |pages| && pages[o].parent == r
      ensures Pending(caps, pages, g', r, n, j + 1) && r in g'.t && g'.t[r].ht == h + 2
      ensures 0 in g'.t && g'.t[0].ht == g.t[0].ht && g'.t[r].ht <= g'.t[0].ht
    {
      ghost var s := pages;
      InnerSearchable(caps, s1, s, g, g', o, n, m, cut, r);
      ghost var newMax;
      newMax, j := LowerSeparator(r, o, oldMax, h);
      InnerFinished(caps, s1, s, pages, g, g', o, n, oldMax, m, cut, r, j);
    }

    // internal_node_insert for a node of the tree that lacks its child number pos.
    method InsertAndSettle(r: nat, n: nat, ghost h: nat, ghost pos: nat)
      requires Pending(caps, pages, g, r, n, pos) && g.t[r].ht == h + 1 && pages[n].parent == r
      requires |pages| + PagesToSettle(g, caps.innerMax, r) <= FILE_PAGES_NUM
      modifies this`pages, this`g
      ensures Settled(caps, pages, old(g), g, h)
      ensures |pages| == |old(pages)| + old(PagesToSettle(g, caps.innerMax, r))
      decreases if r in g.t && 0 in g.t && g.t[r].ht <= g.t[0].ht then g.t[0].ht - g.t[r].ht + 1 else 0, 2
    {
      ghost var s := pages;
      PendingInsertable(caps, s, g, r, n, pos);
      InternalNodeInsert(r, n, h, pos);
      if s[r].count < caps.innerMax {
        PlacedSettles(caps, s, pages, g, r, n, pos);
      }
    }

    // ----------------------------------------------------------------
    // Inserting a row into a leaf, splitting it when full

    // Lines 448-458: shift the cells from cursor position on by one and write the new one.
    method PutCell(p: nat, cell: nat, key: Key, row: Row)
      requires p < |pages| && Sized(caps, pages[p]) && cell <= pages[p].count < caps.leafMax
      modifies this`pages
      ensures |pages| == |old(pages)| && pages == old(pages)[p := pages[p]]
      ensures pages[p] == old(pages)[p].(count := old(pages)[p].count + 1, cells := pages[p].cells)
      ensures Sized(caps, pages[p])
      ensures CellPut(old(pages)[p], pages[p], cell, Cell(key, row))
    {
      ghost var was := pages[p];
      var numCells := pages[p].count;
      if cell < numCells {
        var i := numCells;
        while i > cell
          invariant cell <= i <= numCells
          invariant |pages| == |old(pages)| && pages == old(pages)[p := pages[p]]
          invariant pages[p] == was.(cells := pages[p].cells) && Sized(caps, pages[p])
          invariant forall j | 0 <= j < i :: pages[p].cells[j] == was.cells[j]
          invariant forall j {:trigger pages[p].cells[j]} | i < j <= numCells :: pages[p].cells[j] == was.cells[j - 1]
        {
          pages := pages[p := pages[p].(cells := pages[p].cells[i := pages[p].cells[i - 1]])];
          i := i - 1;
        }
      }
      pages := pages[p := pages[p].(count := pages[p].count + 1)];
      pages := pages[p := pages[p].(cells := pages[p].cells[cell := Cell(key, row)])];
    }

    // Lines 395-420: the backward loop over the cells of the full page and the new one.
    method RedistributeCells(p: nat, n: nat, cell: nat, key: Key, row: Row)
      requires p < |pages| && n < |pages| && p != n && cell <= caps.leafMax
      requires Sized(caps, pages[p]) && Sized(caps, pages[n])
      modifies this`pages
      ensures |pages| == |old(pages)|
      ensures pages == old(pages)[p := old(pages)[p].(count := caps.LeftSplit(), cells := pages[p].cells)]
                                 [n := old(pages)[n].(count := caps.RightSplit(), cells := pages[n].cells)]
      ensures Redistributing(caps, old(pages)[p].cells, InsertAt(old(pages)[p].cells, cell, Cell(key, row)),
                             pages[p].cells, pages[n].cells, -1)
    {
      MoveCells(p, n, cell, key, row);
      pages := pages[p := pages[p].(count := caps.LeftSplit())];
      pages := pages[n := pages[n].(count := caps.RightSplit())];
      TwoPlaces(old(pages), pages, p, n);
    }

    // Lines 395-420.
    method MoveCells(p: nat, n: nat, cell: nat, key: Key, row: Row)
      requires p < |pages| && n < |pages| && p != n && cell <= caps.leafMax
      requires Sized(caps, pages[p]) && Sized(caps, pages[n])
      modifies this`pages
      ensures |pages| == |old(pages)|
      ensures pages[p] == old(pages)[p].(cells := pages[p].cells)
      ensures pages[n] == old(pages)[n].(cells := pages[n].cells)
      ensures forall q {:trigger pages[q]} | 0 <= q < |pages| && q != p && q != n :: pages[q] == old(pages)[q]
      ensures Redistributing(caps, old(pages)[p].cells, InsertAt(old(pages)[p].cells, cell, Cell(key, row)),
                             pages[p].cells, pages[n].cells, -1)
    {
      ghost var was := pages[p].cells;
      ghost var all := InsertAt(was, cell, Cell(key, row));
      var i: int := caps.leafMax;
      while i >= 0
        invariant |pages| == |old(pages)|
        invariant pages[p] == old(pages)[p].(cells := pages[p].cells)
        invariant pages[n] == old(pages)[n].(cells := pages[n].cells)
        invariant forall q {:trigger pages[q]} | 0 <= q < |pages| && q != p && q != n :: pages[q] == old(pages)[q]
        invariant Redistributing(caps, was, all, pages[p].cells, pages[n].cells, i)
      {
        RedistributeStep(caps, was, cell, Cell(key, row), pages[p].cells, pages[n].cells, i);
        var dest := if i >= caps.LeftSplit() then n else p;
        var index := i % caps.LeftSplit();
        var x := if i == cell then Cell(key, row)
                 else if i > cell then pages[p].cells[i - 1]
                 else pages[p].cells[i];
        pages := pages[dest := pages[dest].(cells := pages[dest].cells[index := x])];
        i := i - 1;
      }
    }

    // Lines 385-420: a new leaf takes the upper part of the cells and the link to the next leaf.
    method DivideLeaf(p: nat, cell: nat, key: Key, row: Row) returns (n: nat)
      requires p < |pages| < FILE_PAGES_NUM && Sized(caps, pages[p]) && cell <= caps.leafMax
      modifies this`pages
      ensures n == |old(pages)| && LeafDivided(caps, old(pages), pages, p, cell, Cell(key, row))
    {
      n := |pages|;
      GetPage(n);
      pages := pages[n := InitializeLeaf(pages[n])];
      pages := pages[n := pages[n].(parent := pages[p].parent)];
      pages := pages[n := pages[n].(link := pages[p].link)];
      pages := pages[p := pages[p].(link := n)];
      RedistributeCells(p, n, cell, key, row);
    }

    method LeafNodeSplitAndInsert(cursor: Cursor, key: Key, row: Row)
      requires CanInsert(caps, pages, g, cursor.pageNum, cursor.cellNum, key)
      requires pages[cursor.pageNum].count == caps.leafMax
      requires |pages| + PagesToInsert(caps, pages, g, cursor.pageNum) <= FILE_PAGES_NUM
      modifies this`pages, this`g
      ensures Valid() && g.rows == old(g.rows)[key := row]
      ensures |pages| == |old(pages)| + old(PagesToInsert(caps, pages, g, cursor.pageNum))
    {
      ghost var s0, x := pages, Cell(key, row);
      var p, cell := cursor.pageNum, cursor.cellNum;
      assert PageOk(caps, pages, g, p) && NodeOk(g.t, g.top, p);
      var oldMax := GetNodeMaxKey(p, 0);
      var n := DivideLeaf(p, cell, key, row);
      if pages[p].isRoot {
        ghost var s := pages;
        CreateNewRoot(n, 0);
        g := LeafRooted(caps, s0, s, pages, g, cell, x);
      } else {
        RaiseLeaf(p, n, oldMax, cell, x, s0);
      }
    }

    // Lines 425-431, with the separator written to the parent's page.
    method RaiseLeaf(p: nat, n: nat, oldMax: Key, ghost cell: nat, ghost x: Cell, ghost s0: seq<Page>)
      requires CanInsert(caps, s0, g, p, cell, x.key) && p != 0 && s0[p].count == caps.leafMax
      requires |s0| + PagesToInsert(caps, s0, g, p) <= FILE_PAGES_NUM && |s0| < FILE_PAGES_NUM
      requires s0[p].count > 0 && oldMax == s0[p].cells[s0[p].count - 1].key
      requires n == |s0| && LeafDivided(caps, s0, pages, p, cell, x)
      modifies this`pages, this`g
      ensures Valid() && g.rows == old(g.rows)[x.key := x.row]
      ensures |pages| == |s0| + PagesToInsert(caps, s0, old(g), p)
    {
      ghost var s := pages;
      ghost var m := LeafSplitReady(caps, s0, s, g, p, cell, x);
      var r := pages[p].parent;
      ghost var index := LowerLeafSeparator(r, p, n, oldMax, m, x, s0);
      g := LeafSplitModel(g, p, n, m, x);
      InsertAndSettle(r, n, 0, index + 1);
    }

    // Lines 426-430, with the separator written to the parent's page.
    method LowerLeafSeparator(r: nat, p: nat, n: nat, oldMax: Key, ghost m: Key, ghost x: Cell, ghost s0: seq<Page>)
      returns (index: nat)
      requires n == |s0| && LeafRaisable(caps, s0, pages, g, p, x, m) && r == g.t[p].parent
      requires oldMax == s0[p].cells[s0[p].count - 1].key
      modifies this`pages
      ensures |pages| == |old(pages)|
      ensures Pending(caps, pages, LeafSplitModel(g, p, n, m, x), r, n, index + 1)
      ensures LeafSplitModel(g, p, n, m, x).t[r].ht == 1 && pages[n].parent == r
    {
      ghost var s := pages;
      var newMax := GetNodeMaxKey(p, 0);
      index := InternalNodeFindChild(pages[r], oldMax);
      pages := pages[r := pages[r].(slots := pages[r].slots[index := pages[r].slots[index].(key := newMax)])];
      LeafLowered(caps, s0, s, pages, g, p, m, x, oldMax, index);
    }

    // The table with one more row, through any cascade of leaf, internal and root splits.
    method LeafNodeInsert(cursor: Cursor, key: Key, row: Row)
      requires CanInsert(caps, pages, g, cursor.pageNum, cursor.cellNum, key)
      requires |pages| + PagesToInsert(caps, pages, g, cursor.pageNum) <= FILE_PAGES_NUM
      modifies this`pages, this`g
      ensures Valid() && g.rows == old(g.rows)[key := row]
      ensures |pages| == |old(pages)| + old(PagesToInsert(caps, pages, g, cursor.pageNum))
    {
      ghost var s0 := pages;
      ghost var p, cell := cursor.pageNum, cursor.cellNum;
      assert PageOk(caps, pages, g, p);
      var numCells := pages[cursor.pageNum].count;
      if numCells >= caps.leafMax {
        LeafNodeSplitAndInsert(cursor, key, row);
        return;
      }
      PutCell(cursor.pageNum, cursor.cellNum, key, row);
      RowInserted(caps, s0, pages, g, p, cell, key, row);
      g := WithRow(g, p, key, row);
    }

    // ----------------------------------------------------------------
    // Searching

    // A cursor at the first cell of leaf p whose key is not below the key.
    method LeafNodeFind(p: nat, key: Key) returns (cursor: Cursor)
      requires p < |pages| && pages[p].count <= |pages[p].cells| && CellsAscend(pages[p])
      ensures fresh(cursor) && cursor.table == this && !cursor.endOfTable
      ensures cursor.pageNum == p && LowerBound(pages[p], key, cursor.cellNum)
    {
      var numCells := pages[p].count;
      cursor := new Cursor(this, p, 0);
      if numCells == 0 {
        cursor.cellNum := 0;
        return;
      }
      var minIndex: nat, maxIndex: nat, ans := 0, numCells - 1, numCells;
      while minIndex <= maxIndex
        invariant minIndex <= ans == maxIndex + 1 <= numCells == pages[p].count
        invariant cursor.table == this && !cursor.endOfTable && cursor.pageNum == p
        invariant forall j | 0 <= j < minIndex :: pages[p].cells[j].key < key
        invariant forall j | maxIndex < j < numCells :: key < pages[p].cells[j].key
        decreases ans - minIndex
      {
        var index := (minIndex + maxIndex) / 2;
        var keyAtIndex := pages[p].cells[index].key;
        if key == keyAtIndex {
          cursor.cellNum := index;
          return;
        }
        if key < keyAtIndex {
          if index == 0 {
            ans := index;
            break;
          }
          maxIndex := index - 1;
          ans := index;
        } else {
          minIndex := index + 1;
        }
      }
      cursor.cellNum := ans;
    }

    // The position of the key: its leaf, and its lower bound in the leaf.
    ghost predicate At(cursor: Cursor, key: Key)
      reads this, cursor
    {
      && cursor.table == this && cursor.pageNum < |pages|
      && Covers(g.t, cursor.pageNum, key) && g.t[cursor.pageNum].ht == 0
      && pages[cursor.pageNum].count <= |pages[cursor.pageNum].cells|
      && LowerBound(pages[cursor.pageNum], key, cursor.cellNum)
    }

    method InternalNodeFind(p: nat, key: Key) returns (cursor: Cursor)
      requires Valid() && Covers(g.t, p, key) && g.t[p].ht > 0 && p < |pages|
      ensures fresh(cursor) && At(cursor, key) && !cursor.endOfTable
      decreases g.t[p].ht
    {
      assert PageOk(caps, pages, g, p);
      InnerAscends(caps, pages[p], g, p);
      var childIndex := InternalNodeFindChild(pages[p], key);
      Descends(caps, pages, g, p, key, childIndex);
      var childNum := InternalNodeChild(pages[p], childIndex);
      assert PageOk(caps, pages, g, childNum);
      if pages[childNum].nodeType == LEAF {
        cursor := LeafNodeFind(childNum, key);
      } else {
        cursor := InternalNodeFind(childNum, key);
      }
    }

    method TableFind(key: Key) returns (cursor: Cursor)
      requires Valid()
      ensures fresh(cursor) && At(cursor, key) && !cursor.endOfTable
      ensures var page := pages[cursor.pageNum];
              && (key in g.rows <==> cursor.cellNum < page.count && page.cells[cursor.cellNum].key == key)
              && (key in g.rows ==> page.cells[cursor.cellNum].row == g.rows[key])
    {
      assert PageOk(caps, pages, g, 0) && NodeOk(g.t, g.top, 0);
      if pages[ROOT_PAGE_NUM].nodeType == LEAF {
        cursor := LeafNodeFind(ROOT_PAGE_NUM, key);
      } else {
        cursor := InternalNodeFind(ROOT_PAGE_NUM, key);
      }
      assert PageOk(caps, pages, g, cursor.pageNum);
      FoundIffPresent(pages[cursor.pageNum], g.t[cursor.pageNum], g.rows, key, cursor.cellNum);
    }

    method TableStart() returns (cursor: Cursor)
      requires Valid()
      ensures fresh(cursor) && At(cursor, 0)
      ensures cursor.endOfTable <==> g.rows == map[]
      ensures !cursor.endOfTable ==>
                && cursor.OnCell()
                && forall k | k in g.rows :: pages[cursor.pageNum].cells[cursor.cellNum].key <= k
    {
      cursor := TableFind(0);
      var numCells := pages[ROOT_PAGE_NUM].count;
      cursor.endOfTable := numCells == 0;
      EmptyIff();
      if !cursor.endOfTable {
        FirstRow(caps, pages, g, cursor.pageNum, cursor.cellNum);
      }
    }

    // The root page's count tells an empty table, whether it counts cells or keys.
    lemma EmptyIff()
      requires Valid()
      ensures 0 < |pages| && (pages[0].count == 0 <==> g.rows == map[])
    {
      assert PageOk(caps, pages, g, 0) && NodeOk(g.t, g.top, 0);
      if g.t[0].ht == 0 {
        if pages[0].count > 0 {
          assert pages[0].cells[0].key in g.rows;
        }
      } else {
        assert |Children(pages[0])| >= 2;
        var leaf := LeafCovering(g.t, g.top, 0, 0);
        assert PageOk(caps, pages, g, leaf) && NodeOk(g.t, g.top, leaf);
        assert pages[leaf].cells[0].key in g.rows;
      }
    }

    // ----------------------------------------------------------------
    // What clients do

    // An empty table: page 0 initialised as a root leaf.
    constructor (caps: Caps)
      ensures this.caps == caps && Valid() && g.rows == map[] && |pages| == 1
    {
      this.caps := caps;
      pages := [InitializeLeaf(ZeroPage(caps)).(isRoot := true)];
      g := Model(map[0 := Node(0, -1, INF, [], 0)], 0, map[]);
      new;
      assert PageNumbers(1) == {0};
      assert PageOk(this.caps, pages, g, 0);
    }

    method Insert(key: Key, row: Row)
      requires Valid() && key !in g.rows
      requires forall p: nat {:trigger Covers(g.t, p, key)} | Covers(g.t, p, key) && g.t[p].ht == 0 && p < |pages| ::
                 |pages| + PagesToInsert(caps, pages, g, p) <= FILE_PAGES_NUM
      modifies this`pages, this`g
      ensures Valid() && g.rows == old(g.rows)[key := row]
    {
      var cursor := TableFind(key);
      LeafNodeInsert(cursor, key, row);
    }

    // With the source's capacities, a table of fewer than 4119 rows has room for any insertion.
    lemma RoomForRow(key: Key)
      requires Valid() && caps == TOY_SQL_CAPS && |g.rows| < 4119
      ensures forall p: nat {:trigger Covers(g.t, p, key)} | Covers(g.t, p, key) && g.t[p].ht == 0 && p < |pages| ::
                |pages| + PagesToInsert(caps, pages, g, p) <= FILE_PAGES_NUM
    {
      forall p: nat {:trigger Covers(g.t, p, key)} | Covers(g.t, p, key) && g.t[p].ht == 0 && p < |pages|
        ensures |pages| + PagesToInsert(caps, pages, g, p) <= FILE_PAGES_NUM
      {
        BTreeCapacity.FileSuffices(pages, g, p);
      }
    }

    // A run of insertions of up to 4119 rows with different keys never meets the end of the file.
    method InsertAll(cells: seq<Cell>)
      requires Valid() && caps == TOY_SQL_CAPS && |g.rows| + |cells| <= 4119
      requires forall i, j | 0 <= i < j < |cells| :: cells[i].key != cells[j].key
      requires forall i | 0 <= i < |cells| :: cells[i].key !in g.rows
      modifies this`pages, this`g
      ensures Valid()
      ensures g.rows == WithCells(old(g.rows), cells, |cells|)
    {
      for i := 0 to |cells|
        invariant Valid() && g.rows == WithCells(old(g.rows), cells, i)
      {
        WithCellsHolds(old(g.rows), cells, i);
        RoomForRow(cells[i].key);
        Insert(cells[i].key, cells[i].row);
      }
    }

    // A scan from the start yields every row once, in ascending key order.
    method Scan() returns (out: seq<Cell>)
      requires Valid()
      ensures Listed(out, g.rows, INF)
    {
      var cursor := TableStart();
      out := [];
      while !cursor.endOfTable
        invariant fresh(cursor) && cursor.table == this
        invariant cursor.endOfTable || cursor.OnCell()
        invariant Listed(out, g.rows,
                         if cursor.endOfTable then INF else pages[cursor.pageNum].cells[cursor.cellNum].key)
        decreases if cursor.endOfTable then 0 else INF - pages[cursor.pageNum].cells[cursor.cellNum].key
      {
        assert PageOk(caps, pages, g, cursor.pageNum);
        var x := cursor.Value();
        ghost var was := out;
        out := out + [x];
        cursor.Advance();
        ListedStep(was, g.rows, x, if cursor.endOfTable then INF else pages[cursor.pageNum].cells[cursor.cellNum].key);
      }
    }
  }

  class Cursor {
    const table: Table
    var pageNum: nat
    var cellNum: nat
    var endOfTable: bool

    constructor (table: Table, pageNum: nat, cellNum: nat)
      ensures this.table == table && this.pageNum == pageNum && this.cellNum == cellNum && !endOfTable
    {
      this.table, this.pageNum, this.cellNum, endOfTable := table, pageNum, cellNum, false;
    }

    // On a cell of a leaf.
    ghost predicate OnCell()
      reads this, table
    {
      && !endOfTable && table.Valid()
      && pageNum in table.g.t && table.g.t[pageNum].ht == 0 && pageNum < |table.pages|
      && cellNum < table.pages[pageNum].count <= |table.pages[pageNum].cells|
    }

    method Value() returns (x: Cell)
      requires OnCell()
      ensures x == table.pages[pageNum].cells[cellNum]
    {
      x := table.pages[pageNum].cells[cellNum];
    }

    // To the next cell, of this leaf or of the next one; no row lies between.
    method Advance()
      requires OnCell()
      modifies this
      ensures endOfTable || OnCell()
      ensures var was := old(table.pages[pageNum].cells[cellNum].key);
              if endOfTable then forall k | k in table.g.rows :: k <= was
              else
                && was < table.pages[pageNum].cells[cellNum].key
                && forall k | k in table.g.rows && was < k :: table.pages[pageNum].cells[cellNum].key <= k
    {
      ghost var p, i := pageNum, cellNum;
      cellNum := cellNum + 1;
      if cellNum >= table.pages[pageNum].count {
        var nextPageNum := table.pages[pageNum].link;
        if nextPageNum == 0 {
          endOfTable := true;
        } else {
          pageNum := nextPageNum;
          cellNum := 0;
        }
      }
      NextRow(table.caps, table.pages, table.g, p, i);
    }
  }
}
