/** How the nodes and rows lie in the bytes of a page. */
module Layout {
  import opened Bytes
  import BTreePages

  // ------------------------------------------------------------------
  // The fields and where they lie

  const ROW_SIZE: nat := 4 + 1 + 255
  const COMMON_NODE_HEADER_SIZE: nat := 1 + 1 + 4
  const NODE_HEADER_SIZE: nat := COMMON_NODE_HEADER_SIZE + 4 + 4
  const LEAF_NODE_CELL_SIZE: nat := 4 + ROW_SIZE
  const LEAF_NODE_MAX_CELLS: nat := (PAGE_SIZE - NODE_HEADER_SIZE) / LEAF_NODE_CELL_SIZE
  const INTERNAL_NODE_CELL_SIZE: nat := 4 + 4
  const INTERNAL_NODE_MAX_CELLS: nat := 3

  // Count is the number of cells or of keys, Link the next leaf or the right child.
  datatype Field =
    | Type | IsRoot | Parent | Count | Link
    | CellKey(i: nat) | CellValue(i: nat)
    | SlotChild(i: nat) | SlotKey(i: nat)

  predicate InHeader(f: Field) {
    f.Type? || f.IsRoot? || f.Parent? || f.Count? || f.Link?
  }

  predicate OfLeaf(f: Field) {
    InHeader(f) || ((f.CellKey? || f.CellValue?) && f.i < LEAF_NODE_MAX_CELLS)
  }

  // An internal node has one slot more than it has keys at most: line 234 can write there.
  predicate OfInternal(f: Field) {
    InHeader(f) || ((f.SlotChild? || f.SlotKey?) && f.i <= INTERNAL_NODE_MAX_CELLS)
  }

  function Offset(f: Field): nat {
    match f
    case Type => 0
    case IsRoot => 1
    case Parent => 2
    case Count => COMMON_NODE_HEADER_SIZE
    case Link => COMMON_NODE_HEADER_SIZE + 4
    case CellKey(i) => NODE_HEADER_SIZE + i * LEAF_NODE_CELL_SIZE
    case CellValue(i) => NODE_HEADER_SIZE + i * LEAF_NODE_CELL_SIZE + 4
    case SlotChild(i) => NODE_HEADER_SIZE + i * INTERNAL_NODE_CELL_SIZE
    case SlotKey(i) => NODE_HEADER_SIZE + i * INTERNAL_NODE_CELL_SIZE + 4
  }

  function Size(f: Field): nat {
    if f.Type? || f.IsRoot? then 1 else if f.CellValue? then ROW_SIZE else 4
  }

  predicate Apart(f: Field, g: Field) {
    Offset(f) + Size(f) <= Offset(g) || Offset(g) + Size(g) <= Offset(f)
  }

  // The capacities that the layout leaves room for are those of the tree.
  lemma Capacities()
    ensures BTreePages.TOY_SQL_CAPS == BTreePages.Caps(LEAF_NODE_MAX_CELLS, INTERNAL_NODE_MAX_CELLS)
    ensures Offset(CellKey(LEAF_NODE_MAX_CELLS)) <= PAGE_SIZE < Offset(CellKey(LEAF_NODE_MAX_CELLS + 1))
  {
  }

  // The record of a leaf or internal node a field is part of: a cell, a slot, or the header.
  function RecordEnd(f: Field): nat {
    match f
    case CellKey(i) => NODE_HEADER_SIZE + (i + 1) * LEAF_NODE_CELL_SIZE
    case CellValue(i) => NODE_HEADER_SIZE + (i + 1) * LEAF_NODE_CELL_SIZE
    case SlotChild(i) => NODE_HEADER_SIZE + (i + 1) * INTERNAL_NODE_CELL_SIZE
    case SlotKey(i) => NODE_HEADER_SIZE + (i + 1) * INTERNAL_NODE_CELL_SIZE
    case _ => NODE_HEADER_SIZE
  }

  lemma InRecord(f: Field)
    requires OfLeaf(f) || OfInternal(f)
    ensures Offset(f) + Size(f) <= RecordEnd(f) <= PAGE_SIZE
    ensures !InHeader(f) ==> NODE_HEADER_SIZE <= Offset(f)
  {
    assert LEAF_NODE_MAX_CELLS == 15;
  }

  // Two fields of one kind of node share no byte, and all of them lie in the page.
  lemma FieldsApart(f: Field, g: Field)
    requires (OfLeaf(f) && OfLeaf(g)) || (OfInternal(f) && OfInternal(g))
    ensures Offset(f) + Size(f) <= PAGE_SIZE
    ensures f != g <==> Apart(f, g)
  {
    InRecord(f);
    InRecord(g);
    if !InHeader(f) && !InHeader(g) {
      if f.i < g.i {
        assert RecordEnd(f) <= Offset(g);
      } else if g.i < f.i {
        assert RecordEnd(g) <= Offset(f);
      }
    }
  }

  // The slot that update_internal_node_key takes a number for: eight times the number is computed in 32 bits.
  function SlotOfNumber(number: Word): nat {
    number % 0x2000_0000
  }

  // As many slots would fit in a page.
  const SLOTS_IN_PAGE: nat := 510

  // ------------------------------------------------------------------
  // Reading and writing a field

  type PageBytes = b: seq<Byte> | |b| == PAGE_SIZE witness seq(PAGE_SIZE, _ => 0)

  function Read(b: PageBytes, f: Field): (v: seq<Byte>)
    requires Offset(f) + Size(f) <= PAGE_SIZE
    ensures |v| == Size(f)
  {
    b[Offset(f)..Offset(f) + Size(f)]
  }

  function Store(b: PageBytes, f: Field, v: seq<Byte>): PageBytes
    requires Offset(f) + Size(f) <= PAGE_SIZE && |v| == Size(f)
  {
    b[..Offset(f)] + v + b[Offset(f) + Size(f)..]
  }

  // A write changes its own field to what was written, and no other field.
  lemma ReadStore(b: PageBytes, f: Field, v: seq<Byte>, g: Field)
    requires (OfLeaf(f) && OfLeaf(g)) || (OfInternal(f) && OfInternal(g))
    requires |v| == Size(f)
    ensures Offset(f) + Size(f) <= PAGE_SIZE && Offset(g) + Size(g) <= PAGE_SIZE
    ensures Read(Store(b, f, v), g) == if f == g then v else Read(b, g)
  {
    FieldsApart(f, g);
    FieldsApart(g, f);
    if f == g {
      ReadSame(b, f, v);
    } else {
      ReadOther(b, f, v, g);
    }
  }

  lemma ReadSame(b: PageBytes, f: Field, v: seq<Byte>)
    requires Offset(f) + Size(f) <= PAGE_SIZE && |v| == Size(f)
    ensures Read(Store(b, f, v), f) == v
  {
    SliceAt(b[..Offset(f)], v, b[Offset(f) + Size(f)..]);
  }

  lemma ReadOther(b: PageBytes, f: Field, v: seq<Byte>, g: Field)
    requires Offset(f) + Size(f) <= PAGE_SIZE && Offset(g) + Size(g) <= PAGE_SIZE && |v| == Size(f) && Apart(f, g)
    ensures Read(Store(b, f, v), g) == Read(b, g)
  {
    SliceApart(b, Offset(f), v, Offset(g), Size(g));
  }

  lemma SliceApart(b: seq<Byte>, at: nat, v: seq<Byte>, i: nat, n: nat)
    requires at + |v| <= |b| && i + n <= |b| && (at + |v| <= i || i + n <= at)
    ensures |b[..at] + v + b[at + |v|..]| == |b|
    ensures (b[..at] + v + b[at + |v|..])[i..i + n] == b[i..i + n]
  {
    if at + |v| <= i {
      SliceBehind(b, at, v, i, n);
    } else {
      SliceBefore(b, at, v, i, n);
    }
  }

  lemma SliceAt(a: seq<Byte>, v: seq<Byte>, c: seq<Byte>)
    ensures (a + v + c)[|a|..|a| + |v|] == v
  {
  }

  lemma SliceBehind(b: seq<Byte>, at: nat, v: seq<Byte>, i: nat, n: nat)
    requires at + |v| <= i && i + n <= |b|
    ensures |b[..at] + v + b[at + |v|..]| == |b|
    ensures (b[..at] + v + b[at + |v|..])[i..i + n] == b[i..i + n]
  {
  }

  lemma SliceBefore(b: seq<Byte>, at: nat, v: seq<Byte>, i: nat, n: nat)
    requires i + n <= at && at + |v| <= |b|
    ensures |b[..at] + v + b[at + |v|..]| == |b|
    ensures (b[..at] + v + b[at + |v|..])[i..i + n] == b[i..i + n]
  {
  }

  // ------------------------------------------------------------------
  // The nodes in the bytes

  datatype Cell = Cell(key: Word, value: seq<Byte>)

  datatype Slot = Slot(child: Word, key: Word)

  datatype Header = Header(nodeType: Byte, isRoot: Byte, parent: Word, count: Word, link: Word)

  datatype Leaf = Leaf(header: Header, cells: seq<Cell>)

  datatype Internal = Internal(header: Header, slots: seq<Slot>)

  function HeaderOf(b: PageBytes): Header {
    Header(b[0], b[1], Decode(Read(b, Parent)), Decode(Read(b, Count)), Decode(Read(b, Link)))
  }

  function CellOf(b: PageBytes, i: nat): Cell
    requires i < LEAF_NODE_MAX_CELLS
  {
    FieldsApart(CellKey(i), CellValue(i));
    FieldsApart(CellValue(i), CellKey(i));
    Cell(Decode(Read(b, CellKey(i))), Read(b, CellValue(i)))
  }

  function SlotOf(b: PageBytes, i: nat): Slot
    requires i <= INTERNAL_NODE_MAX_CELLS
  {
    Slot(Decode(Read(b, SlotChild(i))), Decode(Read(b, SlotKey(i))))
  }

  function LeafOf(b: PageBytes): (n: Leaf)
    ensures |n.cells| == LEAF_NODE_MAX_CELLS
  {
    Leaf(HeaderOf(b), seq(LEAF_NODE_MAX_CELLS, i requires 0 <= i < LEAF_NODE_MAX_CELLS => CellOf(b, i)))
  }

  function InternalOf(b: PageBytes): Internal {
    Internal(HeaderOf(b),
             seq(INTERNAL_NODE_MAX_CELLS + 1, i requires 0 <= i <= INTERNAL_NODE_MAX_CELLS => SlotOf(b, i)))
  }

  // The value a field stands for, in the node's terms.
  function SetHeader(h: Header, f: Field, v: seq<Byte>): Header
    requires |v| == Size(f)
  {
    match f
    case Type => h.(nodeType := v[0])
    case IsRoot => h.(isRoot := v[0])
    case Parent => h.(parent := Decode(v))
    case Count => h.(count := Decode(v))
    case Link => h.(link := Decode(v))
    case _ => h
  }

  function SetLeaf(n: Leaf, f: Field, v: seq<Byte>): Leaf
    requires |v| == Size(f) && |n.cells| == LEAF_NODE_MAX_CELLS && OfLeaf(f)
  {
    match f
    case CellKey(i) => n.(cells := n.cells[i := n.cells[i].(key := Decode(v))])
    case CellValue(i) => n.(cells := n.cells[i := n.cells[i].(value := v)])
    case _ => n.(header := SetHeader(n.header, f, v))
  }

  function SetInternal(n: Internal, f: Field, v: seq<Byte>): Internal
    requires |v| == Size(f) && |n.slots| == INTERNAL_NODE_MAX_CELLS + 1 && OfInternal(f)
  {
    match f
    case SlotChild(i) => n.(slots := n.slots[i := n.slots[i].(child := Decode(v))])
    case SlotKey(i) => n.(slots := n.slots[i := n.slots[i].(key := Decode(v))])
    case _ => n.(header := SetHeader(n.header, f, v))
  }

  lemma StoreHeader(b: PageBytes, f: Field, v: seq<Byte>)
    requires |v| == Size(f) && (OfLeaf(f) || OfInternal(f))
    ensures Offset(f) + Size(f) <= PAGE_SIZE
    ensures HeaderOf(Store(b, f, v)) == SetHeader(HeaderOf(b), f, v)
  {
    ReadStore(b, f, v, Type);
    ReadStore(b, f, v, IsRoot);
    ReadStore(b, f, v, Parent);
    ReadStore(b, f, v, Count);
    ReadStore(b, f, v, Link);
    var s := Store(b, f, v);
    assert s[0] == Read(s, Type)[0] && s[1] == Read(s, IsRoot)[0];
    assert b[0] == Read(b, Type)[0] && b[1] == Read(b, IsRoot)[0];
  }

  // Writing the bytes of a field is setting the field of the node the bytes stand for.
  lemma StoreLeaf(b: PageBytes, f: Field, v: seq<Byte>)
    requires OfLeaf(f) && |v| == Size(f)
    ensures Offset(f) + Size(f) <= PAGE_SIZE
    ensures LeafOf(Store(b, f, v)) == SetLeaf(LeafOf(b), f, v)
  {
    StoreHeader(b, f, v);
    var n, s := SetLeaf(LeafOf(b), f, v), Store(b, f, v);
    forall i | 0 <= i < LEAF_NODE_MAX_CELLS ensures CellOf(s, i) == n.cells[i] {
      ReadStore(b, f, v, CellKey(i));
      ReadStore(b, f, v, CellValue(i));
    }
    assert LeafOf(s).cells == n.cells;
  }

  lemma StoreInternal(b: PageBytes, f: Field, v: seq<Byte>)
    requires OfInternal(f) && |v| == Size(f)
    ensures Offset(f) + Size(f) <= PAGE_SIZE
    ensures InternalOf(Store(b, f, v)) == SetInternal(InternalOf(b), f, v)
  {
    StoreHeader(b, f, v);
    var n, s := SetInternal(InternalOf(b), f, v), Store(b, f, v);
    forall i | 0 <= i <= INTERNAL_NODE_MAX_CELLS ensures SlotOf(s, i) == n.slots[i] {
      ReadStore(b, f, v, SlotChild(i));
      ReadStore(b, f, v, SlotKey(i));
    }
    assert InternalOf(s).slots == n.slots;
  }

  // ------------------------------------------------------------------
  // The layout by the numbers of the bytes

  // Where in the page the 4 bytes of a word stand.
  ghost predicate WordAt(b: PageBytes, at: nat, w: Word) {
    at + 4 <= PAGE_SIZE && b[at..at + 4] == Encode(w)
  }

  ghost predicate HeaderBytes(b: PageBytes, h: Header) {
    b[0] == h.nodeType && b[1] == h.isRoot && WordAt(b, 2, h.parent) && WordAt(b, 6, h.count) && WordAt(b, 10, h.link)
  }

  // A cell is 264 bytes: its key and the 260 bytes of its row.
  ghost predicate CellBytes(b: PageBytes, i: nat, x: Cell) {
    && i < 15 && WordAt(b, 14 + 264 * i, x.key)
    && b[14 + 264 * i + 4..14 + 264 * i + 264] == x.value
  }

  // A slot is 8 bytes: its child and its key.
  ghost predicate SlotBytes(b: PageBytes, i: nat, x: Slot) {
    i < 4 && WordAt(b, 14 + 8 * i, x.child) && WordAt(b, 14 + 8 * i + 4, x.key)
  }

  lemma WordAtIff(b: PageBytes, at: nat, w: Word)
    requires at + 4 <= PAGE_SIZE
    ensures Decode(b[at..at + 4]) == w <==> WordAt(b, at, w)
  {
    DecodeEncode(w);
    EncodeDecode(b[at..at + 4]);
  }

  lemma HeaderBytesIff(b: PageBytes, h: Header)
    ensures HeaderOf(b) == h <==> HeaderBytes(b, h)
  {
    WordAtIff(b, 2, h.parent);
    WordAtIff(b, 6, h.count);
    WordAtIff(b, 10, h.link);
  }

  lemma CellBytesIff(b: PageBytes, i: nat, x: Cell)
    requires i < 15
    ensures CellOf(b, i) == x <==> CellBytes(b, i, x)
  {
    WordAtIff(b, 14 + 264 * i, x.key);
    assert Read(b, CellKey(i)) == b[14 + 264 * i..14 + 264 * i + 4];
    assert Read(b, CellValue(i)) == b[14 + 264 * i + 4..14 + 264 * i + 264];
  }

  lemma SlotBytesIff(b: PageBytes, i: nat, x: Slot)
    requires i < 4
    ensures SlotOf(b, i) == x <==> SlotBytes(b, i, x)
  {
    WordAtIff(b, 14 + 8 * i, x.child);
    WordAtIff(b, 14 + 8 * i + 4, x.key);
  }

  // A page's bytes are this leaf exactly if type, root mark, parent, number of cells, next leaf and the 15 cells stand
  // in these bytes.
  lemma LeafBytesIff(b: PageBytes, n: Leaf)
    requires |n.cells| == 15
    ensures LeafOf(b) == n <==> HeaderBytes(b, n.header) && forall i | 0 <= i < 15 :: CellBytes(b, i, n.cells[i])
  {
    HeaderBytesIff(b, n.header);
    forall i | 0 <= i < 15 ensures LeafOf(b).cells[i] == n.cells[i] <==> CellBytes(b, i, n.cells[i]) {
      CellBytesIff(b, i, n.cells[i]);
    }
    if forall i | 0 <= i < 15 :: CellBytes(b, i, n.cells[i]) {
      assert LeafOf(b).cells == n.cells;
    }
  }

  // The same for an internal node: number of keys, right child and the slots.
  lemma InternalBytesIff(b: PageBytes, n: Internal)
    requires |n.slots| == 4
    ensures InternalOf(b) == n <==> HeaderBytes(b, n.header) && forall i | 0 <= i < 4 :: SlotBytes(b, i, n.slots[i])
  {
    HeaderBytesIff(b, n.header);
    forall i | 0 <= i < 4 ensures InternalOf(b).slots[i] == n.slots[i] <==> SlotBytes(b, i, n.slots[i]) {
      SlotBytesIff(b, i, n.slots[i]);
    }
    if forall i | 0 <= i < 4 :: SlotBytes(b, i, n.slots[i]) {
      assert InternalOf(b).slots == n.slots;
    }
  }
}
