/** Placing a child in an internal node, on the bytes of its page. */
module InnerPages {
  import opened Bytes
  import opened Layout
  import opened RawPages
  import opened PageImages
  import B = BTreePages

  const INVALID: Word := 0xFFFF_FFFF

  // internal_node_child for child number i: whether it ends the program.
  method ChildEnds(node: RawNode, i: nat) returns (ends: bool)
    requires node.Valid() && HeaderOf(node.data[..]).count <= INTERNAL_NODE_MAX_CELLS
    ensures var n := InternalOf(node.data[..]);
            ends <==> i > n.header.count || INVALID == if i == n.header.count then n.header.link else n.slots[i].child
  {
    var count := node.Get(Count);
    if i > Decode(count) {
      return true;
    }
    var child := node.Get(if i == Decode(count) then Link else SlotChild(i));
    ends := Decode(child) == INVALID;
  }

  // memcpy of one slot over another.
  method CopySlot(node: RawNode, to: nat, from: nat)
    requires node.Valid() && to <= INTERNAL_NODE_MAX_CELLS && from <= INTERNAL_NODE_MAX_CELLS && to != from
    modifies node.data
    ensures InternalOf(node.data[..]) ==
            var n := InternalOf(old(node.data[..])); n.(slots := n.slots[to := n.slots[from]])
  {
    ghost var n := InternalOf(node.data[..]);
    var child := node.Get(SlotChild(from));
    var key := node.Get(SlotKey(from));
    assert n.slots[from] == Layout.SlotOf(old(node.data[..]), from) == Slot(Decode(child), Decode(key));
    SetSlot(node, to, child, key);
  }

  // The slots from index on moved up by one, up to number count.
  function MovedUp(slots: seq<Slot>, index: nat, count: nat): (r: seq<Slot>)
    requires index <= count < |slots|
    ensures |r| == |slots|
    ensures forall j {:trigger r[j]} | 0 <= j < |r| :: r[j] == if index < j <= count then slots[j - 1] else slots[j]
  {
    seq(|slots|, j requires 0 <= j < |slots| => if index < j <= count then slots[j - 1] else slots[j])
  }

  lemma MovedUpStep(slots: seq<Slot>, i: nat, count: nat)
    requires 0 < i <= count < |slots|
    ensures var r := MovedUp(slots, i, count); r[i := r[i - 1]] == MovedUp(slots, i - 1, count)
  {
  }

  // The node with a child put in, behind the right child or in front of child number index.
  function WithChild(n: Internal, child: Word, childMax: Word, rightMax: Word, index: nat): Internal
    requires index <= n.header.count < INTERNAL_NODE_MAX_CELLS == |n.slots| - 1
  {
    var count := n.header.count;
    if childMax > rightMax then
      Internal(n.header.(count := count + 1, link := child), n.slots[count := Slot(n.header.link, rightMax)])
    else
      Internal(n.header.(count := count + 1), MovedUp(n.slots, index, count)[index := Slot(child, childMax)])
  }

  // The child goes last, or last but the right one.
  predicate GoesLast(n: Internal, childMax: Word, rightMax: Word, index: nat) {
    childMax > rightMax || index == n.header.count
  }

  // The 8 bytes of slot i.
  function SlotSlice(b: PageBytes, i: nat): (r: seq<Byte>)
    requires i < 4
    ensures |r| == 8
  {
    b[14 + 8 * i..14 + 8 * i + 8]
  }

  // The same in the bytes: one is added to the number in bytes 6 to 9; the child becomes the right one, in bytes 10 to
  // 13, and the right one goes into the next slot; or the slots behind move up by 8 bytes.
  ghost predicate ChildInserted(b: PageBytes, s: PageBytes, child: Word, childMax: Word, rightMax: Word, index: nat) {
    var count: int := Decode(b[6..10]);
    && count < 3 && s[..6] == b[..6] && s[6..10] == Encode(count + 1)
    && if childMax > rightMax then
         && s[10..14] == Encode(child)
         && forall i {:trigger SlotSlice(s, i)} | 0 <= i < 4 ::
              SlotSlice(s, i) == if i == count then b[10..14] + Encode(rightMax) else SlotSlice(b, i)
       else
         && s[10..14] == b[10..14]
         && forall i {:trigger SlotSlice(s, i)} | 0 <= i < 4 ::
              SlotSlice(s, i) == if i == index then Encode(child) + Encode(childMax)
                                 else if index < i <= count then SlotSlice(b, i - 1) else SlotSlice(b, i)
  }

  lemma SlotInBytes(b: PageBytes, i: nat)
    requires i < 4
    ensures SlotSlice(b, i) == Encode(InternalOf(b).slots[i].child) + Encode(InternalOf(b).slots[i].key)
  {
    SlotBytesIff(b, i, InternalOf(b).slots[i]);
    var at := 14 + 8 * i;
    assert SlotSlice(b, i) == b[at..at + 4] + b[at + 4..at + 8];
  }

  lemma InsertedInBytes(b: PageBytes, s: PageBytes, child: Word, childMax: Word, rightMax: Word, index: nat)
    requires index <= HeaderOf(b).count < INTERNAL_NODE_MAX_CELLS
    requires InternalOf(s) == WithChild(InternalOf(b), child, childMax, rightMax, index)
    ensures ChildInserted(b, s, child, childMax, rightMax, index)
  {
    HeaderInBytes(b, HeaderOf(b));
    HeaderInBytes(s, HeaderOf(s));
    DecodeEncode(HeaderOf(b).count);
    assert s[..6] == [s[0], s[1]] + s[2..6] && b[..6] == [b[0], b[1]] + b[2..6];
    forall i | 0 <= i < 4
      ensures SlotSlice(s, i) == Encode(InternalOf(s).slots[i].child) + Encode(InternalOf(s).slots[i].key)
      ensures SlotSlice(b, i) == Encode(InternalOf(b).slots[i].child) + Encode(InternalOf(b).slots[i].key)
    {
      SlotInBytes(s, i);
      SlotInBytes(b, i);
    }
  }

  // Lines 268 to 283. The program ends exactly if the child goes last and the slot it takes, which is not in use yet,
  // holds the invalid page number.
  method PlaceChild(node: RawNode, child: Word, childMax: Word, rightMax: Word, index: nat) returns (ended: bool)
    requires node.Valid() && index <= HeaderOf(node.data[..]).count < INTERNAL_NODE_MAX_CELLS
    requires var n := InternalOf(node.data[..]); forall k | 0 <= k < n.header.count :: n.slots[k].child != INVALID
    modifies node.data
    ensures var n := InternalOf(old(node.data[..]));
            && (ended <==> GoesLast(n, childMax, rightMax, index) && n.slots[n.header.count].child == INVALID)
            && (!ended ==> InternalOf(node.data[..]) == WithChild(n, child, childMax, rightMax, index))
    ensures !ended ==> ChildInserted(old(node.data[..]), node.data[..], child, childMax, rightMax, index)
  {
    ended := PlaceInSlots(node, child, childMax, rightMax, index);
    if !ended {
      InsertedInBytes(old(node.data[..]), node.data[..], child, childMax, rightMax, index);
    }
  }

  method PlaceInSlots(node: RawNode, child: Word, childMax: Word, rightMax: Word, index: nat) returns (ended: bool)
    requires node.Valid() && index <= HeaderOf(node.data[..]).count < INTERNAL_NODE_MAX_CELLS
    requires var n := InternalOf(node.data[..]); forall k | 0 <= k < n.header.count :: n.slots[k].child != INVALID
    modifies node.data
    ensures var n := InternalOf(old(node.data[..]));
            && (ended <==> GoesLast(n, childMax, rightMax, index) && n.slots[n.header.count].child == INVALID)
            && (!ended ==> InternalOf(node.data[..]) == WithChild(n, child, childMax, rightMax, index))
  {
    DecodeEncode(childMax);
    DecodeEncode(rightMax);
    var bytes := node.Get(Count);
    var numKeys := Decode(bytes);
    var right := node.Get(Link);
    SetCount(node, numKeys + 1);
    if childMax > rightMax {
      ended := ChildEnds(node, numKeys);
      if ended {
        return;
      }
      SetSlot(node, numKeys, right, Encode(rightMax));
      node.SetAsInternal(Link, Encode(child));
      DecodeEncode(child);
    } else {
      MoveUp(node, index, numKeys);
      ended := ChildEnds(node, index);
      if ended {
        return;
      }
      SetSlot(node, index, Encode(child), Encode(childMax));
      DecodeEncode(child);
    }
  }

  method SetCount(node: RawNode, count: Word)
    requires node.Valid()
    modifies node.data
    ensures InternalOf(node.data[..]) ==
            var n := InternalOf(old(node.data[..])); n.(header := n.header.(count := count))
  {
    node.SetAsInternal(Count, Encode(count));
    DecodeEncode(count);
  }

  method SetSlot(node: RawNode, i: nat, child: seq<Byte>, key: seq<Byte>)
    requires node.Valid() && i <= INTERNAL_NODE_MAX_CELLS && |child| == |key| == 4
    modifies node.data
    ensures InternalOf(node.data[..]) ==
            var n := InternalOf(old(node.data[..])); n.(slots := n.slots[i := Slot(Decode(child), Decode(key))])
  {
    ghost var n := InternalOf(node.data[..]);
    node.SetAsInternal(SlotChild(i), child);
    node.SetAsInternal(SlotKey(i), key);
    assert InternalOf(node.data[..]).slots == n.slots[i := Slot(Decode(child), Decode(key))];
  }

  // Lines 276 to 280.
  method MoveUp(node: RawNode, index: nat, numKeys: nat)
    requires node.Valid() && index <= numKeys <= INTERNAL_NODE_MAX_CELLS
    modifies node.data
    ensures InternalOf(node.data[..]) ==
            var n := InternalOf(old(node.data[..])); n.(slots := MovedUp(n.slots, index, numKeys))
  {
    ghost var n := InternalOf(node.data[..]);
    assert MovedUp(n.slots, numKeys, numKeys) == n.slots;
    var i := numKeys;
    while i > index
      invariant index <= i <= numKeys
      invariant InternalOf(node.data[..]) == n.(slots := MovedUp(n.slots, i, numKeys))
    {
      CopySlot(node, i, i - 1);
      MovedUpStep(n.slots, i, numKeys);
      i := i - 1;
    }
  }

  // In terms of the tree's page it is the placing of the child there.
  lemma PlacedPage(b: PageBytes, s: PageBytes, child: Word, childMax: Word, rightMax: Word, index: nat)
    requires index <= HeaderOf(b).count < INTERNAL_NODE_MAX_CELLS
    requires InternalOf(s) == WithChild(InternalOf(b), child, childMax, rightMax, index)
    ensures B.PlacedAt(PageOf(b), PageOf(s).(cells := PageOf(b).cells), child, childMax, rightMax, index)
  {
    forall i | 0 <= i <= INTERNAL_NODE_MAX_CELLS
      ensures Layout.SlotOf(s, i) == InternalOf(s).slots[i] && Layout.SlotOf(b, i) == InternalOf(b).slots[i]
    {
    }
  }

  // ------------------------------------------------------------------
  // A page that was a leaf

  // The slots behind the first lie over bytes of the first row's value that nothing of the header or of the first slot
  // touches: they are those of the leaf.
  lemma FirstRowStays(b: PageBytes, f: Field, v: seq<Byte>)
    requires |v| == Size(f) && (InHeader(f) || f == SlotChild(0) || f == SlotKey(0))
    ensures Offset(f) + Size(f) <= PAGE_SIZE
    ensures Layout.CellOf(Store(b, f, v), 0).value[4..] == Layout.CellOf(b, 0).value[4..]
  {
    var at := Offset(CellValue(0)) + 4;
    SliceBehind(b, Offset(f), v, at, ROW_SIZE - 4);
    assert Layout.CellOf(b, 0).value[4..] == b[at..at + ROW_SIZE - 4];
    var s := Store(b, f, v);
    assert Layout.CellOf(s, 0).value[4..] == s[at..at + ROW_SIZE - 4];
  }

  // So placing a child in such a page ends the program exactly if the child goes last and four bytes of the old first
  // row are all 255.
  method PlaceChildInOldLeaf(node: RawNode, child: Word, childMax: Word, rightMax: Word, index: nat)
    returns (ended: bool)
    requires node.Valid() && index <= HeaderOf(node.data[..]).count < INTERNAL_NODE_MAX_CELLS
    requires 0 < HeaderOf(node.data[..]).count
    requires var n := InternalOf(node.data[..]); forall k | 0 <= k < n.header.count :: n.slots[k].child != INVALID
    modifies node.data
    ensures var b := old(node.data[..]);
            var count, value := HeaderOf(b).count, Layout.CellOf(b, 0).value;
            ended <==> GoesLast(InternalOf(b), childMax, rightMax, index)
                       && forall k | 8 * count - 4 <= k < 8 * count :: value[k] == 255
  {
    StaleSlotInvalid(node.data[..], HeaderOf(node.data[..]).count);
    ended := PlaceChild(node, child, childMax, rightMax, index);
  }
}
