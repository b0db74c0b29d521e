/** Lines 234 and 428 to 430 of btree.cpp as they stand, on the bytes of a page. */
module LinesOnBytes {
  import opened Bytes
  import opened Layout
  import BareTree
  import opened PageImages
  import R = RawPages
  import B = BTreePages
  import opened BTreeShape
  import opened BTreeTheorems
  import opened BTreeTable
  import opened LeafSplitAsWritten
  import opened NumbersAsSlots

  // ------------------------------------------------------------------
  // update_internal_node_key with any number for a slot

  const WORDS: nat := 0x1_0000_0000

  // Where the key is written: the header, the slots before, the child.
  function KeyOffset(number: Word): nat {
    NODE_HEADER_SIZE + number * INTERNAL_NODE_CELL_SIZE % WORDS + 4
  }

  lemma KeyOffsetIs(number: Word)
    ensures KeyOffset(number) == Offset(SlotKey(SlotOfNumber(number)))
  {
    var e, k: int := SlotOfNumber(number), number / 0x2000_0000;
    assert number == 0x2000_0000 * k + e;
    assert number * 8 == WORDS * k + 8 * e && 0 <= 8 * e < WORDS;
    assert number * 8 % WORDS == 8 * e;
  }

  predicate StaysInPage(number: Word) {
    KeyOffset(number) + 4 <= PAGE_SIZE
  }

  // The write stays in the page exactly for the first 510 slots.
  lemma StaysInPageIff(number: Word)
    ensures StaysInPage(number) <==> SlotOfNumber(number) < 510
  {
    KeyOffsetIs(number);
  }

  // The page's own bytes afterwards; a write outside of the page changes bytes that are not the page's.
  function KeyWritten(b: PageBytes, number: Word, key: Word): (r: PageBytes)
    ensures !StaysInPage(number) ==> r == b
  {
    if StaysInPage(number) then b[..KeyOffset(number)] + Encode(key) + b[KeyOffset(number) + 4..] else b
  }

  // What it does to the slots that an internal node uses.
  lemma KeyWrittenSlots(b: PageBytes, number: Word, key: Word, k: nat)
    requires k <= INTERNAL_NODE_MAX_CELLS
    ensures var s, was := KeyWritten(b, number, key), PageImages.SlotOf(b, k);
            HeaderOf(s) == HeaderOf(b) &&
            PageImages.SlotOf(s, k) == if k == SlotOfNumber(number) then was.(key := key) else was
  {
    var s, e, at := KeyWritten(b, number, key), SlotOfNumber(number), KeyOffset(number);
    KeyOffsetIs(number);
    StaysInPageIff(number);
    if e <= INTERNAL_NODE_MAX_CELLS {
      assert s == Store(b, SlotKey(e), Encode(key));
      StoreInternal(b, SlotKey(e), Encode(key));
      DecodeEncode(key);
      assert InternalOf(s).slots[k] == Layout.SlotOf(s, k) && InternalOf(b).slots[k] == Layout.SlotOf(b, k);
    } else if StaysInPage(number) {
      assert at >= Offset(SlotKey(INTERNAL_NODE_MAX_CELLS)) + 8;
      SliceBefore(b, at, Encode(key), Offset(SlotChild(k)), 4);
      SliceBefore(b, at, Encode(key), Offset(SlotKey(k)), 4);
      HeaderKept(b, at, Encode(key));
    }
  }

  lemma HeaderKept(b: PageBytes, at: nat, v: seq<Byte>)
    requires NODE_HEADER_SIZE <= at && at + |v| <= PAGE_SIZE
    ensures |b[..at] + v + b[at + |v|..]| == PAGE_SIZE
    ensures HeaderOf(b[..at] + v + b[at + |v|..]) == HeaderOf(b)
  {
    SliceBefore(b, at, v, Offset(Parent), 4);
    SliceBefore(b, at, v, Offset(Count), 4);
    SliceBefore(b, at, v, Offset(Link), 4);
  }

  // Of the tree's page it makes the one that the split with this line makes of it.
  lemma NumberOnBytes(b: PageBytes, number: Word, key: Word)
    ensures var page, was := PageOf(KeyWritten(b, number, key)), PageOf(b);
            page == BareTree.NumberWritten(was, SlotOfNumber(number), key).(cells := page.cells)
  {
    var page, was := PageOf(KeyWritten(b, number, key)), PageOf(b);
    var page' := BareTree.NumberWritten(was, SlotOfNumber(number), key);
    KeyWrittenSlots(b, number, key, 0);
    forall k | 0 <= k < |page.slots| ensures page.slots[k] == page'.slots[k] {
      KeyWrittenSlots(b, number, key, k);
    }
    assert page.slots == page'.slots;
  }

  // ------------------------------------------------------------------
  // Line 234: the old largest key is the number

  // The write stays in the page, and of the first `last` separators exactly that of child number j, if it has one,
  // becomes the new key.
  ghost predicate SeparatorsRight(b: PageBytes, oldMax: Word, newMax: Word, last: nat, j: nat)
    requires last <= INTERNAL_NODE_MAX_CELLS
  {
    && StaysInPage(oldMax)
    && forall k | 0 <= k < last ::
         PageImages.SlotOf(KeyWritten(b, oldMax, newMax), k).key ==
         if k == j then newMax else PageImages.SlotOf(b, k).key
  }

  // For every old largest key: so it is exactly if the write stays in the page and is harmless for so many separators.
  lemma SeparatorExact(b: PageBytes, oldMax: Word, newMax: Word, last: nat, j: nat)
    requires last <= INTERNAL_NODE_MAX_CELLS && forall k | 0 <= k < last :: PageImages.SlotOf(b, k).key != newMax
    ensures SeparatorsRight(b, oldMax, newMax, last, j) <==>
            SlotOfNumber(oldMax) < SLOTS_IN_PAGE && Harmless(last, j, SlotOfNumber(oldMax))
  {
    var e := SlotOfNumber(oldMax);
    StaysInPageIff(oldMax);
    forall k | 0 <= k < last
      ensures PageImages.SlotOf(KeyWritten(b, oldMax, newMax), k).key ==
              if k == e then newMax else PageImages.SlotOf(b, k).key
    {
      KeyWrittenSlots(b, oldMax, newMax, k);
    }
    assert e < last ==> PageImages.SlotOf(KeyWritten(b, oldMax, newMax), e).key == newMax;
    assert j < last ==> PageImages.SlotOf(b, j).key != newMax;
  }

  lemma LargestKeyRange(s: seq<B.Page>, g: B.Model, o: nat)
    requires B.TableOk(B.TOY_SQL_CAPS, s, g) && o in g.t && o != 0
    ensures 7 <= MaxBelow(g.t, g.top, o) < WORDS
  {
    MaximumAtLeast(B.TOY_SQL_CAPS, s, g, o);
    MaxBelowInRange(g.t, g.top, o);
  }

  // At the source's capacities no key that the line meets is as small as a slot number: of the separators that last in
  // page r all are right only for keys of at least 2^29 that happen to wrap around to slot j, or if child number j has
  // none of them and the key leads behind them, but not out of the page.
  lemma SeparatorInTable(s: seq<B.Page>, g: B.Model, o: nat, r: nat, j: nat, b: PageBytes, newMax: Word)
    requires B.TableOk(B.TOY_SQL_CAPS, s, g) && o in g.t && o != 0 && r < |s| && s[r].nodeType == B.INTERNAL
    requires s[r].count <= INTERNAL_NODE_MAX_CELLS && j <= s[r].count && PageOf(b).slots == s[r].slots
    requires forall k | 0 <= k < s[r].count :: s[r].slots[k].key != newMax
    ensures var oldMax, last := MaxBelow(g.t, g.top, o), B.Lasting(B.TOY_SQL_CAPS, s[r]);
            && 7 <= oldMax < WORDS && last <= INTERNAL_NODE_MAX_CELLS
            && (SeparatorsRight(b, oldMax, newMax, last, j) <==>
                (oldMax >= 0x2000_0000 && SlotOfNumber(oldMax) == j)
                || (last <= j && last <= SlotOfNumber(oldMax) < 510))
  {
    LargestKeyRange(s, g, o);
    var oldMax, last := MaxBelow(g.t, g.top, o), B.Lasting(B.TOY_SQL_CAPS, s[r]);
    Capacities();
    forall k | 0 <= k < last ensures PageImages.SlotOf(b, k).key != newMax {
      assert s[r].slots[k] == PageOf(b).slots[k];
    }
    SeparatorExact(b, oldMax, newMax, last, j);
  }

  // From 510 on, up to where 32 bits wrap around, the write leaves the page, whatever j is.
  lemma SeparatorOutside(b: PageBytes, oldMax: Word, newMax: Word, last: nat, j: nat)
    requires last <= INTERNAL_NODE_MAX_CELLS && 510 <= oldMax < 0x2000_0000
    ensures KeyOffset(oldMax) >= PAGE_SIZE && !SeparatorsRight(b, oldMax, newMax, last, j)
  {
    KeyOffsetIs(oldMax);
  }

  // ------------------------------------------------------------------
  // Lines 428 to 430: the leaf's bytes are taken for the parent's

  // The first row's value with four bytes of it overwritten.
  lemma ValueOverwritten(value: seq<Byte>, i: nat, key: Word)
    requires |value| == ROW_SIZE && 8 * i + 4 <= ROW_SIZE
    ensures var v := value[..8 * i] + Encode(key) + value[8 * i + 4..];
            |v| == ROW_SIZE && RowOf(v) == RowOverwritten(RowOf(value), i, key)
  {
    var v := value[..8 * i] + Encode(key) + value[8 * i + 4..];
    if i == 0 {
      assert v[..4] == Encode(key);
      DecodeEncode(key);
      assert v[4] == value[4] && v[5..] == value[5..];
    } else {
      assert v[..4] == value[..4] && v[4] == value[4];
      var size: nat := value[4];
      var text, text' := RowOf(value).text, RowOf(v).text;
      forall k | 0 <= k < size ensures text'[k] == RowOverwritten(RowOf(value), i, key).text[k] {
        assert text[k] == value[5..][k] == value[5 + k] && text'[k] == v[5..][k] == v[5 + k];
      }
      assert text' == RowOverwritten(RowOf(value), i, key).text;
    }
  }

  // Of a leaf, the write changes the row of the first cell, and nothing else.
  lemma LeafOverwritten(b: PageBytes, i: nat, key: Word)
    requires i <= LEAF_NODE_MAX_CELLS
    ensures Offset(SlotKey(i)) + 4 <= PAGE_SIZE
    ensures var s, was := PageOf(Store(b, SlotKey(i), Encode(key))), PageOf(b);
            s == was.(cells := was.cells[0 := was.cells[0].(row := RowOverwritten(was.cells[0].row, i, key))],
                      slots := s.slots)
  {
    assert LEAF_NODE_MAX_CELLS == 15;
    var at, v := Offset(SlotKey(i)), Encode(key);
    var s := Store(b, SlotKey(i), v);
    HeaderKept(b, at, v);
    FirstValueOverwritten(b, i, key);
    OtherCellsKept(b, i, key);
    ValueOverwritten(Read(b, CellValue(0)), i, key);
    var was := PageOf(b);
    assert PageOf(s).cells == was.cells[0 := was.cells[0].(row := RowOverwritten(was.cells[0].row, i, key))];
  }

  lemma OtherCellsKept(b: PageBytes, i: nat, key: Word)
    requires i <= LEAF_NODE_MAX_CELLS
    ensures Offset(SlotKey(i)) + 4 <= PAGE_SIZE
    ensures Layout.CellOf(Store(b, SlotKey(i), Encode(key)), 0).key == Layout.CellOf(b, 0).key
    ensures forall k | 1 <= k < LEAF_NODE_MAX_CELLS ::
              Layout.CellOf(Store(b, SlotKey(i), Encode(key)), k) == Layout.CellOf(b, k)
  {
    assert LEAF_NODE_MAX_CELLS == 15;
    var at, v := Offset(SlotKey(i)), Encode(key);
    var s := Store(b, SlotKey(i), v);
    SliceBefore(b, at, v, Offset(CellKey(0)), 4);
    forall k | 1 <= k < LEAF_NODE_MAX_CELLS ensures Layout.CellOf(s, k) == Layout.CellOf(b, k) {
      SliceBehind(b, at, v, Offset(CellKey(k)), 4);
      SliceBehind(b, at, v, Offset(CellValue(k)), ROW_SIZE);
    }
  }

  lemma FirstValueOverwritten(b: PageBytes, i: nat, key: Word)
    requires i <= LEAF_NODE_MAX_CELLS
    ensures Offset(SlotKey(i)) + 4 <= PAGE_SIZE && 8 * i + 4 <= ROW_SIZE && Offset(CellValue(0)) + ROW_SIZE <= PAGE_SIZE
    ensures var value := Read(b, CellValue(0));
            Read(Store(b, SlotKey(i), Encode(key)), CellValue(0)) == value[..8 * i] + Encode(key) + value[8 * i + 4..]
  {
    assert LEAF_NODE_MAX_CELLS == 15;
    var at, from, v := Offset(SlotKey(i)), Offset(CellValue(0)), Encode(key);
    var s, value := Store(b, SlotKey(i), v), Read(b, CellValue(0));
    var r, r' := Read(s, CellValue(0)), value[..8 * i] + v + value[8 * i + 4..];
    forall k | 0 <= k < ROW_SIZE ensures r[k] == r'[k] {
      assert r[k] == s[from + k] && value[k] == b[from + k];
    }
  }

  // Where internal_node_find_child takes key number i of a leaf from: the bytes of its first row's value.
  function KeyAt(value: seq<Byte>, i: nat): Word
    requires |value| == ROW_SIZE && i < LEAF_NODE_MAX_CELLS
  {
    assert LEAF_NODE_MAX_CELLS == 15;
    Decode(value[8 * i..8 * i + 4])
  }

  // The end of the binary search between two indices, if ans was found before. The keys need not ascend.
  function SearchFrom(value: seq<Byte>, key: Word, minIndex: nat, maxIndex: int, ans: nat): (i: nat)
    requires |value| == ROW_SIZE && maxIndex < LEAF_NODE_MAX_CELLS
    ensures i == ans || i <= maxIndex
    decreases maxIndex + 1 - minIndex
  {
    if minIndex > maxIndex then ans
    else
      var index := (minIndex + maxIndex) / 2;
      if key <= KeyAt(value, index) then SearchFrom(value, key, minIndex, index - 1, index)
      else SearchFrom(value, key, index + 1, maxIndex, ans)
  }

  function SearchEnd(value: seq<Byte>, key: Word, count: nat): (i: nat)
    requires |value| == ROW_SIZE && count <= LEAF_NODE_MAX_CELLS
    ensures i <= count
  {
    SearchFrom(value, key, 0, count - 1, count)
  }

  // The search has come to these indices, with ans the last key found, and will end at index `end`.
  ghost predicate EndsAt(value: seq<Byte>, key: Word, minIndex: nat, maxIndex: int, ans: nat, end: nat) {
    |value| == ROW_SIZE && maxIndex < LEAF_NODE_MAX_CELLS && SearchFrom(value, key, minIndex, maxIndex, ans) == end
  }

  lemma SearchStep(value: seq<Byte>, key: Word, minIndex: nat, maxIndex: int, ans: nat, end: nat, index: nat)
    requires EndsAt(value, key, minIndex, maxIndex, ans, end)
    requires minIndex <= maxIndex && index == (minIndex + maxIndex) / 2
    ensures index < LEAF_NODE_MAX_CELLS
    ensures key <= KeyAt(value, index) ==>
              EndsAt(value, key, minIndex, index - 1, index, end) && (index == 0 ==> end == 0)
    ensures key > KeyAt(value, index) ==> EndsAt(value, key, index + 1, maxIndex, ans, end)
  {
  }

  lemma KeyInFirstRow(b: PageBytes, i: nat)
    requires i < LEAF_NODE_MAX_CELLS
    ensures Offset(SlotKey(i)) + 4 <= PAGE_SIZE
    ensures var at := Offset(SlotKey(i)); Decode(b[at..at + 4]) == KeyAt(Layout.CellOf(b, 0).value, i)
  {
    assert LEAF_NODE_MAX_CELLS == 15;
    R.SliceOfSlice(b, Offset(CellValue(0)), ROW_SIZE, 8 * i, 8 * i + 4);
  }

  // These are the bytes of the leaf's first row.
  ghost predicate FirstValue(node: R.RawNode, value: seq<Byte>)
    reads node, node.data
  {
    node.Valid() && |value| == ROW_SIZE && value == Layout.CellOf(node.data[..], 0).value
  }

  method ReadKey(node: R.RawNode, i: nat, ghost value: seq<Byte>) returns (key: Word)
    requires FirstValue(node, value) && i < LEAF_NODE_MAX_CELLS
    ensures key == KeyAt(value, i)
  {
    KeyInFirstRow(node.data[..], i);
    var at := Offset(SlotKey(i));
    key := Decode(node.data[at..at + 4]);
  }

  // Whether the search goes on below the index.
  method Compare(node: R.RawNode, key: Word, ghost minIndex: nat, ghost maxIndex: nat, index: nat, ghost ans: nat,
                 ghost value: seq<Byte>, ghost end: nat)
    returns (below: bool)
    requires FirstValue(node, value) && EndsAt(value, key, minIndex, maxIndex, ans, end)
    requires minIndex <= maxIndex && index == (minIndex + maxIndex) / 2
    ensures below ==> EndsAt(value, key, minIndex, index - 1, index, end) && (index == 0 ==> end == 0)
    ensures !below ==> EndsAt(value, key, index + 1, maxIndex, ans, end)
  {
    SearchStep(value, key, minIndex, maxIndex, ans, end, index);
    var keyToRight := ReadKey(node, index, value);
    below := key <= keyToRight;
  }

  // The binary search of internal_node_find_child over the bytes of a leaf.
  method FindChild(node: R.RawNode, key: Word) returns (ans: nat)
    requires node.Valid() && HeaderOf(node.data[..]).count <= LEAF_NODE_MAX_CELLS
    ensures ans == SearchEnd(Layout.CellOf(node.data[..], 0).value, key, HeaderOf(node.data[..]).count)
  {
    var bytes := node.Get(Count);
    var numKeys := Decode(bytes);
    ans := numKeys;
    if numKeys != 0 {
      ghost var value := Layout.CellOf(node.data[..], 0).value;
      ans := Search(node, key, numKeys, value, SearchEnd(value, key, numKeys));
    }
  }

  method Search(node: R.RawNode, key: Word, numKeys: nat, ghost value: seq<Byte>, ghost end: nat) returns (ans: nat)
    requires FirstValue(node, value) && 0 < numKeys && EndsAt(value, key, 0, numKeys - 1, numKeys, end)
    ensures ans == end
  {
    var minIndex: nat, maxIndex: nat, found := 0, numKeys - 1, false;
    ans := numKeys;
    while minIndex <= maxIndex && !found
      invariant if found then ans == end else EndsAt(value, key, minIndex, maxIndex, ans, end)
      decreases maxIndex + 1 - minIndex, !found
    {
      minIndex, maxIndex, ans, found := Narrow(node, key, minIndex, maxIndex, ans, value, end);
    }
  }

  // One pass of the loop; `found` where it breaks.
  method Narrow(node: R.RawNode, key: Word, minIndex: nat, maxIndex: nat, ans: nat, ghost value: seq<Byte>,
                ghost end: nat)
    returns (minIndex': nat, maxIndex': nat, ans': nat, found: bool)
    requires FirstValue(node, value) && minIndex <= maxIndex && EndsAt(value, key, minIndex, maxIndex, ans, end)
    ensures found ==> ans' == end && minIndex' == minIndex && maxIndex' == maxIndex
    ensures !found ==> EndsAt(value, key, minIndex', maxIndex', ans', end)
    ensures !found ==> maxIndex' + 1 - minIndex' < maxIndex + 1 - minIndex
  {
    minIndex', maxIndex', ans', found := minIndex, maxIndex, ans, false;
    var index := (minIndex + maxIndex) / 2;
    var below := Compare(node, key, minIndex, maxIndex, index, ans, value, end);
    if below {
      ans', found := index, index == 0;
      if index > 0 {
        maxIndex' := index - 1;
      }
    } else {
      minIndex' := index + 1;
    }
  }

  // Lines 428 to 430 as written: the first row is overwritten where the search in its own bytes ends.
  method UpdateSeparatorInLeaf(node: R.RawNode, oldMax: Word, newMax: Word) returns (i: nat)
    requires node.Valid() && HeaderOf(node.data[..]).count <= LEAF_NODE_MAX_CELLS
    modifies node.data
    ensures var b := old(node.data[..]); i == SearchEnd(Layout.CellOf(b, 0).value, oldMax, HeaderOf(b).count)
    ensures var s, was := PageOf(node.data[..]), PageOf(old(node.data[..]));
            s == was.(cells := was.cells[0 := was.cells[0].(row := RowOverwritten(was.cells[0].row, i, newMax))],
                      slots := s.slots)
  {
    ghost var b := node.data[..];
    i := FindChild(node, oldMax);
    LeafOverwritten(b, i, newMax);
    WriteKey(node, i, newMax);
  }

  method WriteKey(node: R.RawNode, i: nat, key: Word)
    requires node.Valid() && i <= LEAF_NODE_MAX_CELLS
    modifies node.data
    ensures Offset(SlotKey(i)) + 4 <= PAGE_SIZE
    ensures node.data[..] == Store(old(node.data[..]), SlotKey(i), Encode(key))
  {
    assert LEAF_NODE_MAX_CELLS == 15;
    R.CopyBytes(node.data, Offset(SlotKey(i)), Encode(key));
  }

  // ------------------------------------------------------------------
  // Which rows the search in their own bytes spares

  lemma SearchEight(value: seq<Byte>, key: Word)
    requires |value| == ROW_SIZE
    ensures KeyAt(value, 1) >= key && KeyAt(value, 3) >= key ==>
              SearchEnd(value, key, 8) == if key <= KeyAt(value, 0) then 0 else 1
    ensures KeyAt(value, 3) < key && KeyAt(value, 5) < key && KeyAt(value, 6) < key && KeyAt(value, 7) < key ==>
              SearchEnd(value, key, 8) == 8
  {
  }

  // The numbers that the bytes of a row's text are taken for.
  lemma TextAsKey(row: R.Row, i: nat)
    requires 1 <= i < LEAF_NODE_MAX_CELLS
    ensures 8 * i - 5 + 4 <= row.textSize && row.text[8 * i - 2] >= 32 ==> KeyAt(R.Serialized(row), i) >= 0x2000_0000
    ensures row.textSize <= 8 * i - 5 ==> KeyAt(R.Serialized(row), i) == 0
  {
    assert LEAF_NODE_MAX_CELLS == 15;
    var value, text := R.Serialized(row), R.Trimmed(row).text;
    var v, at := value[8 * i..8 * i + 4], 8 * i;
    assert v[0] == value[at] == text[at - 5] && v[1] == value[at + 1] == text[at - 4];
    assert v[2] == value[at + 2] == text[at - 3] && v[3] == value[at + 3] == text[at - 2];
  }

  lemma RowOfSerialized(row: R.Row)
    ensures RowOf(R.Serialized(row)) == B.Row(row.id, row.text[..row.textSize])
  {
    R.RowRoundTrip(row);
    assert R.Trimmed(row).text[..row.textSize] == row.text[..row.textSize];
  }

  // A text of 23 characters or more, without control characters, is damaged: the search ends at index 1.
  lemma LongTextLost(row: R.Row, oldMax: Word, newMax: Word)
    requires 23 <= row.textSize && forall k | 0 <= k < 23 :: row.text[k] >= 32
    requires row.id < oldMax <= 0x2000_0000 && newMax < 0x2000_0000
    ensures var value := R.Serialized(row);
            SearchEnd(value, oldMax, 8) == 1 && RowOverwritten(RowOf(value), 1, newMax) != RowOf(value)
  {
    var value := R.Serialized(row);
    TextAsKey(row, 1);
    TextAsKey(row, 3);
    assert value[8 * 0..8 * 0 + 4] == Encode(row.id);
    DecodeEncode(row.id);
    SearchEight(value, oldMax);
    RowOfSerialized(row);
    RowKeptIff(RowOf(value), 1, newMax);
    assert RowOf(value).text[8 * 1 - 5 + 3] == row.text[6] >= 32 > Encode(newMax)[3];
  }

  // A text of 19 characters or less is spared: the search ends behind it.
  lemma ShortTextKept(row: R.Row, oldMax: Word, newMax: Word)
    requires row.textSize <= 19 && 0 < oldMax
    ensures var value := R.Serialized(row);
            SearchEnd(value, oldMax, 8) == 8 && RowOverwritten(RowOf(value), 8, newMax) == RowOf(value)
  {
    TextAsKey(row, 3);
    TextAsKey(row, 5);
    TextAsKey(row, 6);
    TextAsKey(row, 7);
    SearchEight(R.Serialized(row), oldMax);
    RowOfSerialized(row);
    RowKeptIff(RowOf(R.Serialized(row)), 8, newMax);
  }

  // ------------------------------------------------------------------
  // The split of a leaf, at the source's capacities

  // The condition for the split to come out right, from what is known before: `value` are the bytes of the row that
  // comes first in the leaf, the old first one or the new row.
  ghost predicate SplitComesOutRight(s: seq<B.Page>, p: nat, cell: nat, x: B.Cell, value: seq<Byte>, j: nat)
    requires |value| == ROW_SIZE
    requires p < |s| && |s[p].cells| == LEAF_NODE_MAX_CELLS && cell <= LEAF_NODE_MAX_CELLS && s[p].parent < |s|
  {
    Capacities();
    ComesOutRight(B.TOY_SQL_CAPS, s, p, cell, x, SearchEnd(value, s[p].cells[14].key, 8), j)
  }

  // leaf_node_split_and_insert as written, with the search in the bytes of the first row.
  method SplitAndInsertOnBytes(table: Table, cursor: Cursor, key: B.Key, row: B.Row, value: seq<Byte>, j: nat)
    requires table.caps == B.TOY_SQL_CAPS
    requires Splits(table.caps, table.pages, table.g, cursor.pageNum, cursor.cellNum, B.Cell(key, row), j)
    requires |value| == ROW_SIZE
    requires RowOf(value) == if cursor.cellNum == 0 then row else table.pages[cursor.pageNum].cells[0].row
    modifies table`pages, table`g
    ensures var p, s, x, rows := cursor.pageNum, old(table.pages), B.Cell(key, row), old(table.g.rows)[key := row];
            var right := SplitComesOutRight(s, p, cursor.cellNum, x, value, j);
            && (right <==> CanBeTable(table.caps, table.pages, rows))
            && (right ==> table.Valid() && table.g.rows == rows)
  {
    var i := SearchEnd(value, table.pages[cursor.pageNum].cells[14].key, 8);
    SplitAndInsert(table, cursor, key, row, i, j);
  }
}
