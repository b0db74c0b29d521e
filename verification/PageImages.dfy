/** The pages of the tree in the bytes of the file. */
module PageImages {
  import opened Bytes
  import opened BTreeLeaves
  import L = Layout
  import R = RawPages
  import B = BTreePages

  // The row in the 260 bytes of a value.
  function RowOf(value: seq<Byte>): B.Row
    requires |value| == L.ROW_SIZE
  {
    var r := R.Deserialized(value);
    B.Row(r.id, r.text[..r.textSize])
  }

  function CellOf(b: L.PageBytes, i: nat): B.Cell
    requires i < L.LEAF_NODE_MAX_CELLS
  {
    B.Cell(L.CellOf(b, i).key, RowOf(L.CellOf(b, i).value))
  }

  function SlotOf(b: L.PageBytes, i: nat): B.Slot
    requires i <= L.INTERNAL_NODE_MAX_CELLS
  {
    B.Slot(L.SlotOf(b, i).child, L.SlotOf(b, i).key)
  }

  // The page that the bytes are: its cells and its slots share bytes, of which a node uses one kind.
  function PageOf(b: L.PageBytes): (page: B.Page)
    ensures |page.cells| == L.LEAF_NODE_MAX_CELLS && |page.slots| == L.INTERNAL_NODE_MAX_CELLS + 1
    ensures forall i {:trigger page.cells[i]} | 0 <= i < |page.cells| :: page.cells[i] == CellOf(b, i)
    ensures forall i {:trigger page.slots[i]} | 0 <= i < |page.slots| :: page.slots[i] == SlotOf(b, i)
  {
    var h := L.HeaderOf(b);
    B.Page(if h.nodeType == 0 then B.INTERNAL else B.LEAF, h.isRoot != 0, h.parent, h.count, h.link,
           seq(L.LEAF_NODE_MAX_CELLS, i requires 0 <= i < L.LEAF_NODE_MAX_CELLS => CellOf(b, i)),
           seq(L.INTERNAL_NODE_MAX_CELLS + 1, i requires 0 <= i <= L.INTERNAL_NODE_MAX_CELLS => SlotOf(b, i)))
  }

  // The page with one field set; setting a cell says nothing of the slots, and the other way round.
  function With(page: B.Page, f: L.Field, v: seq<Byte>): B.Page
    requires |v| == L.Size(f) && |page.cells| == L.LEAF_NODE_MAX_CELLS && |page.slots| == L.INTERNAL_NODE_MAX_CELLS + 1
    requires L.OfLeaf(f) || L.OfInternal(f)
  {
    match f
    case Type => page.(nodeType := if v[0] == 0 then B.INTERNAL else B.LEAF)
    case IsRoot => page.(isRoot := v[0] != 0)
    case Parent => page.(parent := Decode(v))
    case Count => page.(count := Decode(v))
    case Link => page.(link := Decode(v))
    case CellKey(i) => page.(cells := page.cells[i := page.cells[i].(key := Decode(v))])
    case CellValue(i) => page.(cells := page.cells[i := page.cells[i].(row := RowOf(v))])
    case SlotChild(i) => page.(slots := page.slots[i := page.slots[i].(child := Decode(v))])
    case SlotKey(i) => page.(slots := page.slots[i := page.slots[i].(key := Decode(v))])
  }

  lemma StoredCells(b: L.PageBytes, f: L.Field, v: seq<Byte>)
    requires |v| == L.Size(f) && L.OfLeaf(f)
    ensures L.Offset(f) + L.Size(f) <= PAGE_SIZE
    ensures PageOf(L.Store(b, f, v)).cells == With(PageOf(b), f, v).cells
  {
    L.StoreLeaf(b, f, v);
    var s, page := L.Store(b, f, v), With(PageOf(b), f, v);
    forall i | 0 <= i < L.LEAF_NODE_MAX_CELLS ensures CellOf(s, i) == page.cells[i] {
      assert L.CellOf(s, i) == L.LeafOf(s).cells[i] && L.CellOf(b, i) == L.LeafOf(b).cells[i];
    }
  }

  lemma StoredSlots(b: L.PageBytes, f: L.Field, v: seq<Byte>)
    requires |v| == L.Size(f) && L.OfInternal(f)
    ensures L.Offset(f) + L.Size(f) <= PAGE_SIZE
    ensures PageOf(L.Store(b, f, v)).slots == With(PageOf(b), f, v).slots
  {
    L.StoreInternal(b, f, v);
    var s, page := L.Store(b, f, v), With(PageOf(b), f, v);
    forall i | 0 <= i <= L.INTERNAL_NODE_MAX_CELLS ensures SlotOf(s, i) == page.slots[i] {
      assert L.SlotOf(s, i) == L.InternalOf(s).slots[i] && L.SlotOf(b, i) == L.InternalOf(b).slots[i];
    }
  }

  // Writing the bytes of a field sets it in the page, and nothing else that a node of that kind has.
  lemma StoredPage(b: L.PageBytes, f: L.Field, v: seq<Byte>)
    requires |v| == L.Size(f) && (L.OfLeaf(f) || L.OfInternal(f))
    ensures L.Offset(f) + L.Size(f) <= PAGE_SIZE
    ensures var s, page := PageOf(L.Store(b, f, v)), With(PageOf(b), f, v);
            && (L.OfLeaf(f) ==> s.(slots := page.slots) == page)
            && (L.OfInternal(f) ==> s.(cells := page.cells) == page)
  {
    L.StoreHeader(b, f, v);
    if L.OfLeaf(f) {
      StoredCells(b, f, v);
    }
    if L.OfInternal(f) {
      StoredSlots(b, f, v);
    }
  }

  // A page of the byte-wise insertion is the page that the tree's insertion makes.
  lemma InsertedPage(b: L.PageBytes, s: L.PageBytes, cell: nat, key: Word, row: R.Row)
    requires cell <= L.LeafOf(b).header.count < L.LEAF_NODE_MAX_CELLS
    requires L.LeafOf(s) == R.WithCell(L.LeafOf(b), cell, L.Cell(key, R.Serialized(row)))
    ensures var was, page := PageOf(b), PageOf(s);
            && page == was.(count := was.count + 1, cells := page.cells, slots := page.slots)
            && CellPut(was, page, cell, B.Cell(key, B.Row(row.id, row.text[..row.textSize])))
  {
    R.RowRoundTrip(row);
    var was, page := PageOf(b), PageOf(s);
    assert R.Trimmed(row).text[..row.textSize] == row.text[..row.textSize];
    forall i | 0 <= i < L.LEAF_NODE_MAX_CELLS
      ensures L.CellOf(s, i) == L.LeafOf(s).cells[i] && L.CellOf(b, i) == L.LeafOf(b).cells[i]
    {
    }
    forall i {:trigger page.cells[i]} | 0 <= i <= was.count
      ensures page.cells[i] == if i < cell then was.cells[i]
                               else if i == cell then B.Cell(key, B.Row(row.id, row.text[..row.textSize]))
                               else was.cells[i - 1]
    {
      assert L.CellOf(s, i) == L.LeafOf(s).cells[i];
    }
  }
}
