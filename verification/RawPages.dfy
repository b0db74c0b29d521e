/** Nodes and rows written in place, byte by byte, and what they then stand for. */
module RawPages {
  import opened Bytes
  import opened Layout

  // memcpy: the bytes of v to the array, from position `at` on.
  method CopyBytes(a: array<Byte>, at: nat, v: seq<Byte>)
    requires at + |v| <= a.Length
    modifies a
    ensures a[..] == old(a[..at]) + v + old(a[at + |v|..])
  {
    var i := 0;
    while i < |v|
      invariant 0 <= i <= |v|
      invariant forall k | 0 <= k < a.Length :: a[k] == if at <= k < at + i then v[k - at] else old(a[k])
    {
      a[at + i] := v[i];
      i := i + 1;
    }
  }

  // ------------------------------------------------------------------
  // Rows

  const TEXT_CAPACITY: nat := 255

  datatype RawRow = Row(id: Word, textSize: Byte, text: seq<Byte>)

  type Row = r: RawRow | |r.text| == TEXT_CAPACITY witness Row(0, 0, seq(TEXT_CAPACITY, _ => 0))

  function Zeros(n: nat): seq<Byte> {
    seq(n, _ => 0)
  }

  // The row with the bytes past its text size cleared.
  function Trimmed(r: Row): Row {
    r.(text := r.text[..r.textSize] + Zeros(TEXT_CAPACITY - r.textSize))
  }

  function Serialized(r: Row): (b: seq<Byte>)
    ensures |b| == ROW_SIZE
  {
    Encode(r.id) + [r.textSize] + Trimmed(r).text
  }

  function Deserialized(b: seq<Byte>): Row
    requires |b| == ROW_SIZE
  {
    Trimmed(Row(Decode(b[..4]), b[4], b[5..]))
  }

  // The bytes of a row: its number in 4 bytes, the size of its text, the text, and zeros.
  lemma SerializedBytes(r: Row)
    ensures |Serialized(r)| == 260 && Serialized(r)[..4] == Encode(r.id) && Serialized(r)[4] == r.textSize
    ensures forall i | 0 <= i < 255 :: Serialized(r)[5 + i] == if i < r.textSize then r.text[i] else 0
  {
    forall i | 0 <= i < 255 ensures Serialized(r)[5 + i] == if i < r.textSize then r.text[i] else 0 {
      assert Serialized(r)[5 + i] == Trimmed(r).text[i];
    }
  }

  // A row comes back up to its text size; all of it exactly if the bytes behind are zero.
  lemma RowRoundTrip(r: Row)
    ensures Deserialized(Serialized(r)) == Trimmed(r)
    ensures Deserialized(Serialized(r)) == r <==> forall i | r.textSize <= i < TEXT_CAPACITY :: r.text[i] == 0
  {
    var b, size: nat := Serialized(r), r.textSize;
    assert b[..4] == Encode(r.id) && b[4] == r.textSize && b[5..] == Trimmed(r).text;
    DecodeEncode(r.id);
    var text := Trimmed(r).text;
    assert text[..size] == r.text[..size];
    assert forall i | size <= i < TEXT_CAPACITY :: text[i] == 0;
    if forall i | r.textSize <= i < TEXT_CAPACITY :: r.text[i] == 0 {
      assert text == r.text;
    }
  }

  // The other way round, bytes come back if they are zero behind the text.
  lemma BytesRoundTrip(b: seq<Byte>)
    requires |b| == ROW_SIZE
    ensures Serialized(Deserialized(b)) == b <==> forall i | 5 + b[4] as int <= i < ROW_SIZE :: b[i] == 0
  {
    var r, size: nat := Deserialized(b), b[4];
    EncodeDecode(b[..4]);
    assert Trimmed(r).text == r.text;
    assert Serialized(r) == b[..4] + [b[4]] + r.text;
    assert forall i | 5 + size <= i < ROW_SIZE :: Serialized(r)[i] == 0;
    assert forall i | 5 <= i < 5 + size :: Serialized(r)[i] == b[i];
    if forall i | 5 + size <= i < ROW_SIZE :: b[i] == 0 {
      assert forall i | 0 <= i < 4 :: Serialized(r)[i] == b[..4][i];
      assert Serialized(r) == b;
    }
  }

  method Serialize(r: Row) returns (buffer: array<Byte>)
    ensures fresh(buffer) && buffer[..] == Serialized(r)
  {
    buffer := new Byte[ROW_SIZE](_ => 0);
    CopyBytes(buffer, 0, Encode(r.id));
    buffer[4] := r.textSize;
    CopyBytes(buffer, 5, r.text[..r.textSize]);
  }

  method Deserialize(buffer: array<Byte>) returns (r: Row)
    requires buffer.Length == ROW_SIZE
    ensures r == Deserialized(buffer[..])
  {
    var text := new Byte[TEXT_CAPACITY](_ => 0);
    var textSize: nat := buffer[4];
    CopyBytes(text, 0, buffer[5..5 + textSize]);
    r := Row(Decode(buffer[..4]), textSize, text[..]);
    assert buffer[..][5..][..textSize] == buffer[5..5 + textSize];
  }

  // ------------------------------------------------------------------
  // Nodes

  class RawNode {
    const data: array<Byte>

    ghost predicate Valid()
      reads this
    {
      data.Length == PAGE_SIZE
    }

    constructor ()
      ensures Valid() && fresh(data) && data[..] == Zeros(PAGE_SIZE)
    {
      data := new Byte[PAGE_SIZE](_ => 0);
    }

    method Set(f: Field, v: seq<Byte>)
      requires Valid() && (OfLeaf(f) || OfInternal(f)) && |v| == Size(f)
      modifies data
      ensures Offset(f) + Size(f) <= PAGE_SIZE && data[..] == Store(old(data[..]), f, v)
    {
      InRecord(f);
      CopyBytes(data, Offset(f), v);
    }

    method Get(f: Field) returns (v: seq<Byte>)
      requires Valid() && (OfLeaf(f) || OfInternal(f))
      ensures Offset(f) + Size(f) <= PAGE_SIZE && v == Read(data[..], f)
    {
      InRecord(f);
      v := data[Offset(f)..Offset(f) + Size(f)];
    }

    // The parent and the cells keep what they hold.
    method InitializeLeafNode()
      requires Valid()
      modifies data
      ensures data[0] == 1 && data[1] == 0 && data[2..6] == old(data[2..6])
      ensures data[6..10] == [0, 0, 0, 0] && data[10..14] == [0, 0, 0, 0]
      ensures LeafOf(data[..]) ==
              var n := LeafOf(old(data[..])); n.(header := n.header.(nodeType := 1, isRoot := 0, count := 0, link := 0))
    {
      SetAsLeaf(Type, [1]);
      SetAsLeaf(IsRoot, [0]);
      SetAsLeaf(Count, Encode(0));
      SetAsLeaf(Link, Encode(0));
      DecodeEncode(0);
      InitializedInBytes(old(data[..]), data[..], 1, 0);
    }

    method InitializeInternalNode()
      requires Valid()
      modifies data
      ensures data[0] == 0 && data[1] == 0 && data[2..6] == old(data[2..6])
      ensures data[6..10] == [0, 0, 0, 0] && data[10..14] == [255, 255, 255, 255]
      ensures InternalOf(data[..]) ==
              var n := InternalOf(old(data[..]));
              n.(header := n.header.(nodeType := 0, isRoot := 0, count := 0, link := 0xFFFF_FFFF))
    {
      SetAsInternal(Type, [0]);
      SetAsInternal(IsRoot, [0]);
      SetAsInternal(Count, Encode(0));
      SetAsInternal(Link, Encode(0xFFFF_FFFF));
      DecodeEncode(0);
      DecodeEncode(0xFFFF_FFFF);
      InitializedInBytes(old(data[..]), data[..], 0, 0xFFFF_FFFF);
    }

    method SetAsLeaf(f: Field, v: seq<Byte>)
      requires Valid() && OfLeaf(f) && |v| == Size(f)
      modifies data
      ensures LeafOf(data[..]) == SetLeaf(LeafOf(old(data[..])), f, v)
    {
      StoreLeaf(data[..], f, v);
      Set(f, v);
    }

    method SetAsInternal(f: Field, v: seq<Byte>)
      requires Valid() && OfInternal(f) && |v| == Size(f)
      modifies data
      ensures InternalOf(data[..]) == SetInternal(InternalOf(old(data[..])), f, v)
    {
      StoreInternal(data[..], f, v);
      Set(f, v);
    }

    // memcpy of one cell over another.
    method CopyCell(to: nat, from: nat)
      requires Valid() && to < LEAF_NODE_MAX_CELLS && from < LEAF_NODE_MAX_CELLS && to != from
      modifies data
      ensures LeafOf(data[..]) ==
              var n := LeafOf(old(data[..])); n.(cells := n.cells[to := n.cells[from]])
    {
      ghost var n := LeafOf(data[..]);
      var key := Get(CellKey(from));
      var value := Get(CellValue(from));
      SetAsLeaf(CellKey(to), key);
      SetAsLeaf(CellValue(to), value);
      assert n.cells[from] == CellOf(old(data[..]), from);
      CellCopied(n, to, from, key);
    }

    // The cells from `cell` on move up by one.
    method ShiftCells(cell: nat, numCells: nat)
      requires Valid() && cell <= numCells < LEAF_NODE_MAX_CELLS
      modifies data
      ensures LeafOf(data[..]) == var n := LeafOf(old(data[..])); n.(cells := Shifted(n.cells, cell, numCells))
    {
      ghost var was := LeafOf(data[..]);
      var i := numCells;
      while i > cell
        invariant cell <= i <= numCells
        invariant HasMoved(was, i, numCells)
      {
        MoveCell(i, was, numCells);
        i := i - 1;
      }
      MovedAll(was, LeafOf(data[..]), cell, numCells);
    }

    ghost predicate HasMoved(was: Leaf, i: nat, numCells: nat)
      requires Valid()
      reads this, data
    {
      Moved(was, LeafOf(data[..]), i, numCells)
    }

    method MoveCell(i: nat, ghost was: Leaf, ghost numCells: nat)
      requires Valid() && 0 < i <= numCells < LEAF_NODE_MAX_CELLS && HasMoved(was, i, numCells)
      modifies data
      ensures HasMoved(was, i - 1, numCells)
    {
      ghost var n := LeafOf(data[..]);
      CopyCell(i, i - 1);
      MovedStep(was, n, i, numCells);
    }

    // Lines 447-458 of leaf_node_insert on the bytes: there is room for one cell more.
    method InsertCell(cell: nat, key: Word, row: Row)
      requires Valid() && cell <= LeafOf(data[..]).header.count < LEAF_NODE_MAX_CELLS
      modifies data
      ensures LeafOf(data[..]) == WithCell(LeafOf(old(data[..])), cell, Cell(key, Serialized(row)))
      ensures CellInserted(old(data[..]), data[..], cell, key, row)
    {
      var bytes := Get(Count);
      var numCells := Decode(bytes);
      assert numCells == LeafOf(data[..]).header.count;
      ShiftCells(cell, numCells);
      SetAsLeaf(Count, Encode(numCells + 1));
      DecodeEncode(numCells + 1);
      PutCell(cell, key, row);
      InsertedInBytes(old(data[..]), data[..], cell, key, row);
    }

    method PutCell(cell: nat, key: Word, row: Row)
      requires Valid() && cell < LEAF_NODE_MAX_CELLS
      modifies data
      ensures LeafOf(data[..]) ==
              var n := LeafOf(old(data[..])); n.(cells := n.cells[cell := Cell(key, Serialized(row))])
    {
      SetAsLeaf(CellKey(cell), Encode(key));
      DecodeEncode(key);
      var buffer := Serialize(row);
      SetAsLeaf(CellValue(cell), buffer[..]);
    }
  }

  lemma CellCopied(n: Leaf, to: nat, from: nat, key: seq<Byte>)
    requires |n.cells| == LEAF_NODE_MAX_CELLS && to < |n.cells| && from < |n.cells| && |n.cells[from].value| == ROW_SIZE
    requires |key| == 4 && Decode(key) == n.cells[from].key
    ensures SetLeaf(SetLeaf(n, CellKey(to), key), CellValue(to), n.cells[from].value) ==
            n.(cells := n.cells[to := n.cells[from]])
  {
    assert SetLeaf(n, CellKey(to), key).cells[to].key == n.cells[from].key;
  }

  // The cells behind i have moved up by one.
  ghost predicate Moved(was: Leaf, now: Leaf, i: nat, numCells: nat) {
    && |now.cells| == |was.cells| && now == was.(cells := now.cells)
    && forall j {:trigger now.cells[j]} | 0 <= j < |now.cells| ::
         now.cells[j] == if i < j <= numCells then was.cells[j - 1] else was.cells[j]
  }

  lemma MovedStep(was: Leaf, now: Leaf, i: nat, numCells: nat)
    requires Moved(was, now, i, numCells) && 0 < i <= numCells < |was.cells|
    ensures Moved(was, now.(cells := now.cells[i := now.cells[i - 1]]), i - 1, numCells)
  {
  }

  function Shifted(cells: seq<Cell>, cell: nat, numCells: nat): (r: seq<Cell>)
    requires cell <= numCells < |cells|
    ensures |r| == |cells|
    ensures forall j {:trigger r[j]} | 0 <= j < |cells| ::
              r[j] == if cell < j <= numCells then cells[j - 1] else cells[j]
  {
    cells[..cell + 1] + cells[cell..numCells] + cells[numCells + 1..]
  }

  lemma MovedAll(was: Leaf, now: Leaf, cell: nat, numCells: nat)
    requires Moved(was, now, cell, numCells) && cell <= numCells < |was.cells|
    ensures now == was.(cells := Shifted(was.cells, cell, numCells))
  {
    assert now.cells == Shifted(was.cells, cell, numCells);
  }

  // The leaf with one cell put in.
  function WithCell(n: Leaf, cell: nat, x: Cell): Leaf
    requires cell <= n.header.count < |n.cells| == LEAF_NODE_MAX_CELLS
  {
    n.(header := n.header.(count := n.header.count + 1), cells := Shifted(n.cells, cell, n.header.count)[cell := x])
  }

  // The 264 bytes of cell i.
  function CellSlice(b: PageBytes, i: nat): (r: seq<Byte>)
    requires i < 15
    ensures |r| == 264
  {
    b[14 + 264 * i..14 + 264 * i + 264]
  }

  // The insertion in the bytes: one is added to the number in bytes 6 to 9, the cells behind move up by 264 bytes, and
  // the key and the row stand in the place of the new one.
  ghost predicate CellInserted(b: PageBytes, s: PageBytes, cell: nat, key: Word, row: Row) {
    var count: int := Decode(b[6..10]);
    && count < 15 && s[..6] == b[..6] && s[6..10] == Encode(count + 1) && s[10..14] == b[10..14]
    && forall i {:trigger CellSlice(s, i)} | 0 <= i < 15 ::
         CellSlice(s, i) == if i == cell then Encode(key) + Serialized(row)
                            else if cell < i <= count then CellSlice(b, i - 1) else CellSlice(b, i)
  }

  lemma HeaderInBytes(b: PageBytes, h: Header)
    requires HeaderOf(b) == h
    ensures b[0] == h.nodeType && b[1] == h.isRoot
    ensures b[2..6] == Encode(h.parent) && b[6..10] == Encode(h.count) && b[10..14] == Encode(h.link)
  {
    HeaderBytesIff(b, h);
  }

  lemma CellInBytes(b: PageBytes, i: nat)
    requires i < 15
    ensures CellSlice(b, i) == Encode(LeafOf(b).cells[i].key) + LeafOf(b).cells[i].value
  {
    CellBytesIff(b, i, LeafOf(b).cells[i]);
    var at := 14 + 264 * i;
    assert CellSlice(b, i) == b[at..at + 4] + b[at + 4..at + 264];
  }

  lemma InitializedInBytes(b: PageBytes, s: PageBytes, nodeType: Byte, link: Word)
    requires HeaderOf(s) == HeaderOf(b).(nodeType := nodeType, isRoot := 0, count := 0, link := link)
    ensures s[0] == nodeType && s[1] == 0 && s[2..6] == b[2..6] && s[6..10] == Encode(0) && s[10..14] == Encode(link)
  {
    HeaderInBytes(b, HeaderOf(b));
    HeaderInBytes(s, HeaderOf(s));
  }

  lemma SameCellBytes(b: PageBytes, i: nat, s: PageBytes, j: nat)
    requires i < 15 && j < 15 && LeafOf(b).cells[i] == LeafOf(s).cells[j]
    ensures CellSlice(b, i) == CellSlice(s, j)
  {
    CellInBytes(b, i);
    CellInBytes(s, j);
  }

  lemma CountedInBytes(b: PageBytes, s: PageBytes)
    requires HeaderOf(b).count < 15 && HeaderOf(s) == HeaderOf(b).(count := HeaderOf(b).count + 1)
    ensures Decode(b[6..10]) == HeaderOf(b).count
    ensures s[..6] == b[..6] && s[6..10] == Encode(HeaderOf(b).count + 1) && s[10..14] == b[10..14]
  {
    HeaderInBytes(b, HeaderOf(b));
    HeaderInBytes(s, HeaderOf(s));
    DecodeEncode(HeaderOf(b).count);
    assert s[..6] == [s[0], s[1]] + s[2..6] && b[..6] == [b[0], b[1]] + b[2..6];
  }

  lemma InsertedInBytes(b: PageBytes, s: PageBytes, cell: nat, key: Word, row: Row)
    requires cell <= LeafOf(b).header.count < LEAF_NODE_MAX_CELLS
    requires LeafOf(s) == WithCell(LeafOf(b), cell, Cell(key, Serialized(row)))
    ensures CellInserted(b, s, cell, key, row)
  {
    var count := LeafOf(b).header.count;
    CountedInBytes(b, s);
    forall i {:trigger CellSlice(s, i)} | 0 <= i < 15
      ensures CellSlice(s, i) == if i == cell then Encode(key) + Serialized(row)
                                 else if cell < i <= count then CellSlice(b, i - 1) else CellSlice(b, i)
    {
      if i == cell {
        CellInBytes(s, i);
      } else if cell < i <= count {
        SameCellBytes(s, i, b, i - 1);
      } else {
        SameCellBytes(s, i, b, i);
      }
    }
  }

  // The cells in use are those before, with the new one in its place.
  lemma CellsWithCell(n: Leaf, cell: nat, x: Cell)
    requires cell <= n.header.count < |n.cells| == LEAF_NODE_MAX_CELLS
    ensures WithCell(n, cell, x).cells[..n.header.count + 1] ==
            n.cells[..cell] + [x] + n.cells[cell..n.header.count]
  {
  }

  // ------------------------------------------------------------------
  // What a leaf leaves behind when its page becomes an internal node

  // Each slot but the first lies over bytes of the first row.
  lemma SlotOverRow(b: PageBytes, i: nat)
    requires 1 <= i <= INTERNAL_NODE_MAX_CELLS
    ensures Read(b, SlotChild(i)) == CellOf(b, 0).value[8 * i - 4..8 * i]
  {
    assert LEAF_NODE_MAX_CELLS == 15;
    var at := Offset(CellValue(0));
    assert Offset(SlotChild(i)) == at + 8 * i - 4;
    SliceOfSlice(b, at, ROW_SIZE, 8 * i - 4, 8 * i);
  }

  lemma SliceOfSlice(b: seq<Byte>, at: nat, n: nat, i: nat, j: nat)
    requires at + n <= |b| && i <= j <= n
    ensures b[at..at + n][i..j] == b[at + i..at + j]
  {
    var inner, outer := b[at..at + n][i..j], b[at + i..at + j];
    assert |inner| == |outer| && forall k | 0 <= k < |inner| :: inner[k] == outer[k];
  }

  // It reads as the invalid page, at which internal_node_child ends the program, exactly if these bytes are all 255.
  lemma StaleSlotInvalid(b: PageBytes, i: nat)
    requires 1 <= i <= INTERNAL_NODE_MAX_CELLS
    ensures SlotOf(b, i).child == 0xFFFF_FFFF <==>
            forall k | 8 * i - 4 <= k < 8 * i :: CellOf(b, 0).value[k] == 255
  {
    SlotOverRow(b, i);
    var value := CellOf(b, 0).value;
    var v := value[8 * i - 4..8 * i];
    assert v[0] == value[8 * i - 4] && v[1] == value[8 * i - 3] && v[2] == value[8 * i - 2] && v[3] == value[8 * i - 1];
  }

  // Of text without the byte 255, as ASCII and UTF-8 are, no slot is left invalid.
  lemma TextLeavesNoInvalidSlot(b: PageBytes, r: Row, i: nat)
    requires 1 <= i <= INTERNAL_NODE_MAX_CELLS
    requires CellOf(b, 0).value == Serialized(r)
    requires forall k | 0 <= k < r.textSize :: r.text[k] != 255
    ensures SlotOf(b, i).child != 0xFFFF_FFFF
  {
    StaleSlotInvalid(b, i);
    var k := 8 * i - 1;
    assert Serialized(r)[k] == Trimmed(r).text[k - 5];
    assert Trimmed(r).text[k - 5] == if k - 5 < r.textSize then r.text[k - 5] else 0;
  }

  // Of a row of 255 bytes 255 every slot is. The first insertion into a new root reads slot 1, if the child goes behind
  // the only separator (lines 272 and 281 of btree.cpp); slots 2 and 3 are read in the same way later.
  lemma FullRowInvalid(b: PageBytes, r: Row, i: nat)
    requires 1 <= i <= INTERNAL_NODE_MAX_CELLS
    requires CellOf(b, 0).value == Serialized(r)
    requires r.textSize == 255 && forall k | 0 <= k < r.textSize :: r.text[k] == 255
    ensures SlotOf(b, i).child == 0xFFFF_FFFF
  {
    StaleSlotInvalid(b, i);
    forall k | 8 * i - 4 <= k < 8 * i ensures Serialized(r)[k] == 255 {
      assert k > 4 ==> Serialized(r)[k] == Trimmed(r).text[k - 5];
    }
  }
}
