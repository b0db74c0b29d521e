/** The four lines as they stand, on a valid table with the source's capacities. */
module LineExamples {
  import opened Sequences
  import opened BTreeShape
  import opened BTreePages
  import opened BTreeRoom
  import opened BTreeLeaves
  import opened BTreeTable
  import opened LastSeparators
  import opened LateParents
  import opened LeafSplitAsWritten
  import opened NumbersAsSlots
  import opened FullTree
  import BTreeCapacity
  import LinesOnBytes
  import Small = SmallTree
  import L = Layout
  import R = RawPages
  import PageImages

  // Tables with these pages.
  method TableOf(s: seq<Page>, ghost g: Model) returns (table: Table)
    ensures fresh(table) && table.caps == TOY_SQL_CAPS && table.pages == s && table.g == g
  {
    table := new Table(TOY_SQL_CAPS);
    table.pages := s;
    table.g := g;
  }

  method FullTable() returns (table: Table)
    ensures fresh(table) && table.caps == TOY_SQL_CAPS && table.Valid()
    ensures table.pages == Pages() && table.g == TableModel()
  {
    table := TableOf(Pages(), TableModel());
    IsTable();
  }

  lemma FewRows(n: nat)
    ensures |RowsBelow(n)| <= n
  {
    BTreeCapacity.PageNumbersSize(n);
    assert |RowsBelow(n).Keys| == |RowsBelow(n)|;
    SubsetSize(RowsBelow(n).Keys, PageNumbers(n));
  }

  // ------------------------------------------------------------------
  // Lines 155-162

  // The root's last separator is 1438, the largest key 1918.
  lemma MaxKeyFails()
    ensures TableOk(TOY_SQL_CAPS, Pages(), TableModel())
    ensures MaxKeyAsWritten(Pages(), 0, 3) == 1438 && MaxBelow(Tree(), TOP, 0) == 1918
  {
    IsTable();
    assert Pages()[0] == PageAt(0);
  }

  // A row for any leaf splits every page above it, and no table has the pages that are left.
  method KeysFail(n: nat) returns (table: Table)
    requires n < 64
    ensures forall g :: !TableOk(TOY_SQL_CAPS, table.pages, g)
  {
    table := FullTable();
    LeafSplitsInner(n);
    InsertOddLast(table, n);
  }

  method InsertOddLast(table: Table, n: nat)
    requires n < 64 && table.caps == TOY_SQL_CAPS
    requires CanInsert(TOY_SQL_CAPS, table.pages, table.g, 21 + n, 1, FirstKey(n) + 1)
    requires |table.pages| + PagesToInsert(TOY_SQL_CAPS, table.pages, table.g, 21 + n) <= 1027
    requires SplitsInner(TOY_SQL_CAPS, table.pages, table.g, 21 + n)
    modifies table`pages, table`g
    ensures forall g :: !TableOk(TOY_SQL_CAPS, table.pages, g)
  {
    var cursor := new Cursor(table, 21 + n, 1);
    LeafNodeInsertLast(table, cursor, FirstKey(n) + 1, Row(0, []));
  }

  lemma LeafSplitsInner(n: nat)
    requires n < 64
    ensures CanInsert(TOY_SQL_CAPS, Pages(), TableModel(), 21 + n, 1, FirstKey(n) + 1)
    ensures PAGES + PagesToInsert(TOY_SQL_CAPS, Pages(), TableModel(), 21 + n) <= 1027
    ensures SplitsInner(TOY_SQL_CAPS, Pages(), TableModel(), 21 + n)
  {
    OddKeyFits(n);
    LeafPlace(n);
    OddKeyRoom(21 + n);
    LeafsParent(n);
  }

  // ------------------------------------------------------------------
  // Insertions: an odd key belongs into a leaf behind its first cell

  lemma LeafPlace(n: nat)
    requires n < 64
    ensures 21 + n in Tree() && Tree()[21 + n].ht == 0 && Covers(Tree(), 21 + n, FirstKey(n) + 1)
    ensures FirstKey(n) + 1 !in TableModel().rows
    ensures PageAt(21 + n).count == 15 == |PageAt(21 + n).cells| && LowerBound(PageAt(21 + n), FirstKey(n) + 1, 1)
    ensures PageAt(21 + n).parent == Above(21 + n) == 5 + n / 4
  {
    AboveLeaf(n);
    assert Tree()[21 + n] == NodeOf(21 + n);
    BehindFirst(n);
  }

  lemma BehindFirst(n: nat)
    requires n < 64
    ensures |PageAt(21 + n).cells| == 15 && LowerBound(PageAt(21 + n), FirstKey(n) + 1, 1)
  {
    assert forall i | 0 <= i < 15 :: PageAt(21 + n).cells[i] == CellOf(n, i);
  }

  lemma AboveLeaf(n: nat)
    ensures Above(21 + n) == 5 + n / 4 && Above(5 + n / 4) == 1 + n / 16
  {
    assert n / 4 / 4 == n / 16;
  }

  lemma ParentPlace(n: nat)
    requires n < 64
    ensures var page := PageAt(5 + n / 4);
            page.count == 3 < |page.slots| && Children(page) == KidsOf(5 + n / 4) && KidsOf(5 + n / 4)[n % 4] == 21 + n
  {
    assert Children(PageAt(5 + n / 4)) == KidsOf(5 + n / 4);
  }

  lemma OddKeySplits(n: nat)
    requires n < 64
    ensures Splits(TOY_SQL_CAPS, Pages(), TableModel(), 21 + n, 1, Cell(FirstKey(n) + 1, Row(0, [])), n % 4)
  {
    var s, p := Pages(), 21 + n;
    OddKeyFits(n);
    OddKeyRoom(p);
    LeafPlace(n);
    ParentPlace(n);
    assert s[p] == PageAt(p) && s[5 + n / 4] == PageAt(5 + n / 4);
  }

  lemma OddKeyFits(n: nat)
    requires n < 64
    ensures CanInsert(TOY_SQL_CAPS, Pages(), TableModel(), 21 + n, 1, FirstKey(n) + 1)
  {
    IsTable();
    LeafPlace(n);
    assert Pages()[21 + n] == PageAt(21 + n);
  }

  lemma OddKeyRoom(p: nat)
    requires p in Tree() && Tree()[p].ht == 0 && TreeOk(Tree(), TOP) && p < PAGES
    ensures PAGES + PagesToInsert(TOY_SQL_CAPS, Pages(), TableModel(), p) <= 1027
  {
    IsTable();
    FewRows(960 * 2);
    BTreeCapacity.FileSuffices(Pages(), TableModel(), p);
  }

  // ------------------------------------------------------------------
  // Line 428

  // In the leftmost leaf, whose parent is full, the parent keeps a separator that is too large: whatever the search
  // finds, no table has the pages that are left.
  method StaleFails(i: nat) returns (table: Table)
    ensures forall g :: !TableOk(TOY_SQL_CAPS, table.pages, g)
  {
    table := FullTable();
    OddKeySplits(0);
    assert Pages()[5] == PageAt(5);
    var cursor := new Cursor(table, 21, 1);
    SplitAndInsert(table, cursor, 1, Row(0, []), i, 0);
  }

  // The first row of leaf number 3.
  function RowNinety(): R.Row {
    R.Row(90, 23, Letters() + R.Zeros(232))
  }

  // In the last leaf of a parent the order is right, but the search in the bytes of the first row, (90, 23 letters),
  // ends at index 1, and four of the letters are overwritten.
  method RowFails() returns (table: Table)
    ensures LinesOnBytes.SearchEnd(R.Serialized(RowNinety()), 118, 8) == 1
    ensures PageImages.RowOf(R.Serialized(RowNinety())) == Pages()[24].cells[0].row
    ensures !CanBeTable(TOY_SQL_CAPS, table.pages, TableModel().rows[91 := Row(0, [])])
  {
    table := FullTable();
    OddKeySplits(3);
    NinetyLost(table.pages);
    var cursor := new Cursor(table, 24, 1);
    LinesOnBytes.SplitAndInsertOnBytes(table, cursor, 91, Row(0, []), R.Serialized(RowNinety()), 3);
  }

  lemma NinetyLost(s: seq<Page>)
    requires s == Pages()
    ensures |s[24].cells| == 15 && s[24].cells[14].key == 118 && s[24].parent == 5
    ensures LinesOnBytes.SearchEnd(R.Serialized(RowNinety()), 118, 8) == 1
    ensures PageImages.RowOf(R.Serialized(RowNinety())) == s[24].cells[0].row
    ensures var x := Cell(91, Row(0, []));
            !LinesOnBytes.SplitComesOutRight(s, 24, 1, x, R.Serialized(RowNinety()), 3)
  {
    var x := Cell(91, Row(0, []));
    NinetyCells(x);
    NinetyText();
    LinesOnBytes.LongTextLost(RowNinety(), 118, 102);
  }

  lemma NinetyCells(x: Cell)
    ensures |Pages()[24].cells| == 15 && Pages()[24].cells[14].key == 118 && Pages()[24].parent == 5
    ensures Pages()[24].cells[0].row == Row(90, Letters())
    ensures var all := InsertAt(Pages()[24].cells, 1, x);
            all[0].row == Row(90, Letters()) && all[TOY_SQL_CAPS.LeftSplit() - 1].key == 102
  {
    assert Pages()[24] == PageAt(24);
    var all := InsertAt(PageAt(24).cells, 1, x);
    assert all[0] == CellOf(3, 0) && all[7] == CellOf(3, 6);
  }

  lemma NinetyText()
    ensures PageImages.RowOf(R.Serialized(RowNinety())) == Row(90, Letters())
    ensures RowNinety().id == 90 && RowNinety().textSize == 23 && forall k | 0 <= k < 23 :: RowNinety().text[k] >= 32
  {
    LinesOnBytes.RowOfSerialized(RowNinety());
    assert RowNinety().text[..23] == Letters();
  }

  // ------------------------------------------------------------------
  // Line 234

  lemma FirstChildrens(q: nat)
    requires 5 <= q <= 8
    ensures q in Tree() && Tree()[1].kids[q - 5] == q && MaxBelow(Tree(), TOP, q) == 120 * (q - 4) - 2
    ensures q > 5 ==> MaxBelow(Tree(), TOP, q - 1) == 120 * (q - 4) - 122
    ensures PageAt(1).nodeType == INTERNAL && PageAt(1).count == 3 == |PageAt(1).slots| - 1
    ensures forall k | 0 <= k < 3 :: PageAt(1).slots[k].key == 120 * k + 118
  {
    assert Tree()[q] == NodeOf(q) && Tree()[1] == NodeOf(1);
    assert q > 5 ==> Tree()[q - 1] == NodeOf(q - 1);
  }

  // When child q of page 1, which is full, splits, the one separator that lasts is right except for the first child's.
  lemma SeparatorFails(q: nat, b: L.PageBytes, newMax: Key)
    requires 5 <= q <= 8 && PageImages.PageOf(b).slots == PageAt(1).slots
    requires newMax < MaxBelow(Tree(), TOP, q) && (q > 5 ==> MaxBelow(Tree(), TOP, q - 1) < newMax)
    ensures Tree()[1].kids[q - 5] == q && MaxBelow(Tree(), TOP, q) == 120 * (q - 4) - 2
    ensures var last := Lasting(TOY_SQL_CAPS, PageAt(1));
            && last == 1
            && (LinesOnBytes.SeparatorsRight(b, MaxBelow(Tree(), TOP, q), newMax, last, q - 5) <==> q != 5)
  {
    FirstChildrens(q);
    OtherSeparators(q, newMax);
    FirstSlot(b);
    SpareBytes(q, 120 * (q - 4) - 2);
    OneSeparator(b, 120 * (q - 4) - 2, newMax, Lasting(TOY_SQL_CAPS, PageAt(1)), q - 5);
  }

  lemma OneSeparator(b: L.PageBytes, oldMax: Key, newMax: Key, last: nat, j: nat)
    requires last == 1 && PageImages.SlotOf(b, 0).key != newMax && 3 < L.SlotOfNumber(oldMax) < 510
    ensures LinesOnBytes.SeparatorsRight(b, oldMax, newMax, last, j) <==> j >= 1
  {
    LinesOnBytes.SeparatorExact(b, oldMax, newMax, last, j);
  }

  lemma FirstSlot(b: L.PageBytes)
    requires PageImages.PageOf(b).slots == PageAt(1).slots && |PageAt(1).slots| == 4
    ensures PageImages.SlotOf(b, 0) == PageAt(1).slots[0]
  {
    assert PageImages.PageOf(b).slots[0] == PageImages.SlotOf(b, 0);
  }

  // These keys lead behind the separators, inside the page.
  lemma SpareBytes(q: nat, oldMax: Key)
    requires 5 <= q <= 8 && oldMax == 120 * (q - 4) - 2
    ensures oldMax < 0x2000_0000 && 3 < L.SlotOfNumber(oldMax) < 510
  {
  }

  lemma OtherSeparators(q: nat, newMax: Key)
    requires 5 <= q <= 8 && newMax < 120 * (q - 4) - 2 && (q > 5 ==> 120 * (q - 4) - 122 < newMax)
    ensures Pages()[1] == PageAt(1) && PageAt(1).count == 3 < |PageAt(1).slots|
    ensures forall k | 0 <= k < 3 :: PageAt(1).slots[k].key != newMax
  {
    FirstChildrens(q);
    assert Pages()[1] == PageAt(1);
  }

  // A row without text behind the first cell of a leaf.
  method InsertByNumber(s: seq<Page>, ghost g: Model, p: nat, key: Key, ghost v: Outcome)
    returns (table: Table, outside: bool)
    requires CanByNumber(s, g, p, key, v)
    ensures table.caps == TOY_SQL_CAPS
    ensures ComesOut(TOY_SQL_CAPS, table.pages, table.g, g.rows[key := Row(0, [])], outside, v)
  {
    table := TableOf(s, g);
    var cursor := new Cursor(table, p, 1);
    outside := LeafNodeInsertByNumber(table, cursor, key, Row(0, []));
  }

  // The row can be inserted, with this outcome.
  ghost predicate CanByNumber(s: seq<Page>, g: Model, p: nat, key: Key, v: Outcome) {
    && CanInsert(TOY_SQL_CAPS, s, g, p, 1, key) && |s| + PagesToInsert(TOY_SQL_CAPS, s, g, p) <= 1027
    && |s[p].cells| == 15 && InsertOutcome(TOY_SQL_CAPS, s, g, p, 1, Cell(key, Row(0, []))) == v
  }

  // A row for any leaf splits every page above it, and a write leaves its page: at the root at the latest, where 1918
  // is the number.
  lemma NumbersFail(n: nat)
    requires n < 64
    ensures CanByNumber(Pages(), TableModel(), 21 + n, FirstKey(n) + 1, Outside)
  {
    OddKeyFits(n);
    LeafPlace(n);
    OddKeyRoom(21 + n);
    OddOutside(n);
  }

  lemma OddOutside(n: nat)
    requires n < 64
    ensures |Pages()[21 + n].cells| == 15 && TreeOk(Tree(), TOP)
    ensures InsertOutcome(TOY_SQL_CAPS, Pages(), TableModel(), 21 + n, 1, Cell(FirstKey(n) + 1, Row(0, []))) == Outside
  {
    var r, i, low := OddVerdict(n, Cell(FirstKey(n) + 1, Row(0, [])));
    OutsideAbove(r, i, low);
  }

  lemma OddVerdict(n: nat, x: Cell) returns (r: nat, i: nat, low: Key)
    requires n < 64 && x.key == FirstKey(n) + 1
    ensures |Pages()[21 + n].cells| == 15 && TreeOk(Tree(), TOP) && r in Tree() && r < 21 && i < |Tree()[r].kids| == 4
    ensures low < 0x2000_0000 && (i == 3 && (r == 0 || r == 4 || r >= 17) ==> low >= 510)
    ensures InsertOutcome(TOY_SQL_CAPS, Pages(), TableModel(), 21 + n, 1, x) == Verdict(TableModel(), 3, r, i, low)
  {
    r, i, low := 5 + n / 4, n % 4, 30 * n + 12;
    TreeIsOk();
    LeafsParent(n);
    LowKey(n, x);
    KidAt(r, i);
    OutcomeBelow(TOY_SQL_CAPS, Pages(), TableModel(), 21 + n, 1, x, r, i, low);
  }

  // The last key of the left half of the leaf.
  lemma LowKey(n: nat, x: Cell)
    requires n < 64
    ensures |Pages()[21 + n].cells| == 15
    ensures InsertAt(Pages()[21 + n].cells, 1, x)[TOY_SQL_CAPS.LeftSplit() - 1].key == 30 * n + 12
  {
    assert Pages()[21 + n] == PageAt(21 + n);
    assert InsertAt(PageAt(21 + n).cells, 1, x)[7] == CellOf(n, 6);
  }

  lemma KidAt(r: nat, j: nat)
    requires r < 21 && j < 4
    ensures r in Tree() && |Tree()[r].kids| == 4 && IndexIn(Tree()[r].kids, 4 * r + 1 + j) == j
    ensures 4 * r + 1 + j in Tree() && Tree()[4 * r + 1 + j].parent == r
    ensures MaxBelow(Tree(), TOP, 4 * r + 1 + j) == LastKey(LastLeaf(4 * r + 1 + j))
  {
    var q := 4 * r + 1 + j;
    assert Tree()[r] == NodeOf(r) && Tree()[q] == NodeOf(q) && KidsOf(r)[j] == q;
  }

  lemma OutsideAbove(r: nat, i: nat, low: Key)
    requires r < 21 && i < 4 && low < 0x2000_0000
    requires i == 3 && (r == 0 || r == 4 || r >= 17) ==> low >= 510
    ensures r in Tree() && TreeOk(Tree(), TOP) && i < |Tree()[r].kids|
    ensures Verdict(TableModel(), 3, r, i, low) == Outside
    decreases r
  {
    TreeIsOk();
    KidAt(r, i);
    if r == 0 || r == 4 || r >= 17 {
      LargeOutside(r, i, low);
    } else {
      BelowOutside(r, i, low, if i == 1 then low else KidMax(TableModel(), r, 1));
    }
  }

  // The root, its last child and the children of that have large keys below their right children.
  lemma LargeOutside(r: nat, i: nat, low: Key)
    requires (r == 0 || r == 4 || 17 <= r < 21) && i < 4 && low < 0x2000_0000 && (i == 3 ==> low >= 510)
    ensures TreeOk(Tree(), TOP) && r in Tree() && |Tree()[r].kids| == 4
    ensures Verdict(TableModel(), 3, r, i, low) == Outside
  {
    TreeIsOk();
    KidAt(r, 3);
    LargeNumber(r);
    OutsideHere(TableModel(), 3, r, i, low);
  }

  lemma LargeNumber(r: nat)
    requires r == 0 || r == 4 || 17 <= r < 21
    ensures 510 <= LastKey(LastLeaf(4 * r + 4)) < 0x2000_0000
  {
  }

  lemma BelowOutside(r: nat, i: nat, low: Key, low': Key)
    requires 0 < r < 17 && r != 4 && i < 4
    requires low < 0x2000_0000 && TreeOk(Tree(), TOP) && r in Tree() && 4 == |Tree()[r].kids|
    requires low' == if i == 1 then low else KidMax(TableModel(), r, 1)
    ensures Verdict(TableModel(), 3, r, i, low) == Outside
    decreases r, 0
  {
    var q, j, g := Above(r), (r - 1) % 4, TableModel();
    KidAt(q, j);
    KidAt(r, 1);
    OutsideAbove(q, j, low');
    VerdictBelow(g, 3, r, i, low, L.SlotOfNumber(if i == 3 then low else KidMax(g, r, 3)), q, j, low');
  }

  // On the table with room in the root, a row for any leaf splits the page above it. For the first four the separator
  // that stays behind is wrong; for the others the write does no harm.
  method NumbersInSmallTable(n: nat) returns (table: Table, outside: bool)
    requires n < 8
    ensures !outside
    ensures n < 4 ==> forall g :: !TableOk(TOY_SQL_CAPS, table.pages, g)
    ensures n >= 4 ==>
              table.Valid() && table.g.rows == Small.TableModel().rows[Small.FirstKey(n) + 1 := Row(0, [])]
  {
    var s, p, key;
    ghost var g, v;
    s, p, key, g, v := SmallInsertion(n);
    table, outside := InsertByNumber(s, g, p, key, v);
  }

  method SmallInsertion(n: nat) returns (s: seq<Page>, p: nat, key: Key, ghost g: Model, ghost v: Outcome)
    requires n < 8
    ensures CanByNumber(s, g, p, key, v) && v == if n < 4 then Wrong else Right
    ensures s == Small.Pages() && g.rows == Small.TableModel().rows && p == 3 + n && key == Small.FirstKey(n) + 1
  {
    s, p, key, g := Small.Pages(), 3 + n, Small.FirstKey(n) + 1, Small.TableModel();
    v := SmallReady(s, g, n);
  }

  lemma SmallReady(s: seq<Page>, g: Model, n: nat) returns (v: Outcome)
    requires n < 8 && s == Small.Pages() && g == Small.TableModel()
    ensures CanByNumber(s, g, 3 + n, Small.FirstKey(n) + 1, v) && v == if n < 4 then Wrong else Right
  {
    v := if n < 4 then Wrong else Right;
    SmallFits(n);
    SmallRoom(n);
    SmallOutcome(n);
  }

  lemma SmallPlace(n: nat)
    requires n < 8
    ensures 3 + n in Small.Tree() && Small.Tree()[3 + n].ht == 0 && Small.Tree()[3 + n].parent == 1 + n / 4
    ensures Covers(Small.Tree(), 3 + n, Small.FirstKey(n) + 1)
    ensures Small.FirstKey(n) + 1 !in Small.TableModel().rows
    ensures var page := Small.PageAt(3 + n);
            page.count == 15 == |page.cells| && LowerBound(page, Small.FirstKey(n) + 1, 1)
  {
    assert Small.Tree()[3 + n] == Small.NodeOf(3 + n);
    SmallBehindFirst(n);
  }

  lemma SmallBehindFirst(n: nat)
    requires n < 8
    ensures |Small.PageAt(3 + n).cells| == 15 && LowerBound(Small.PageAt(3 + n), Small.FirstKey(n) + 1, 1)
  {
    assert forall i | 0 <= i < 15 :: Small.PageAt(3 + n).cells[i] == Small.CellOf(n, i);
  }

  lemma SmallFits(n: nat)
    requires n < 8
    ensures CanInsert(TOY_SQL_CAPS, Small.Pages(), Small.TableModel(), 3 + n, 1, Small.FirstKey(n) + 1)
    ensures |Small.Pages()[3 + n].cells| == 15
  {
    Small.IsTable();
    SmallPlace(n);
    assert Small.Pages()[3 + n] == Small.PageAt(3 + n);
  }

  lemma SmallRoom(n: nat)
    requires n < 8
    ensures TreeOk(Small.Tree(), Small.TOP) && 3 + n in Small.Tree()
    ensures Small.PAGES + PagesToInsert(TOY_SQL_CAPS, Small.Pages(), Small.TableModel(), 3 + n) <= 1027
  {
    Small.IsTable();
    SmallPlace(n);
    SmallFewRows();
    BTreeCapacity.FileSuffices(Small.Pages(), Small.TableModel(), 3 + n);
  }

  lemma SmallFewRows()
    ensures |Small.TableModel().rows| <= 240
  {
    var rows := Small.RowsBelow(120 * 2);
    BTreeCapacity.PageNumbersSize(120 * 2);
    assert |rows.Keys| == |rows|;
    SubsetSize(rows.Keys, PageNumbers(120 * 2));
  }

  lemma SmallOutcome(n: nat)
    requires n < 8
    ensures |Small.Pages()[3 + n].cells| == 15 && 3 + n in Small.Tree() && TreeOk(Small.Tree(), Small.TOP)
    ensures InsertOutcome(TOY_SQL_CAPS, Small.Pages(), Small.TableModel(), 3 + n, 1,
                          Cell(Small.FirstKey(n) + 1, Row(0, []))) == if n < 4 then Wrong else Right
  {
    SmallVerdictOf(n, Cell(Small.FirstKey(n) + 1, Row(0, [])));
    SmallVerdict(1 + n / 4, n % 4, 30 * n + 12);
  }

  lemma SmallVerdictOf(n: nat, x: Cell)
    requires n < 8 && x.key == Small.FirstKey(n) + 1
    ensures |Small.Pages()[3 + n].cells| == 15 && 3 + n in Small.Tree() && TreeOk(Small.Tree(), Small.TOP)
    ensures 1 + n / 4 in Small.Tree() && n % 4 < |Small.Tree()[1 + n / 4].kids|
    ensures InsertOutcome(TOY_SQL_CAPS, Small.Pages(), Small.TableModel(), 3 + n, 1, x) ==
            Verdict(Small.TableModel(), 3, 1 + n / 4, n % 4, 30 * n + 12)
  {
    Small.TreeIsOk();
    SmallPlace(n);
    SmallLow(n, x);
    SmallKid(1 + n / 4, n % 4);
    OutcomeBelow(TOY_SQL_CAPS, Small.Pages(), Small.TableModel(), 3 + n, 1, x, 1 + n / 4, n % 4, 30 * n + 12);
  }

  lemma SmallLow(n: nat, x: Cell)
    requires n < 8 && x.key == Small.FirstKey(n) + 1
    ensures |Small.Pages()[3 + n].cells| == 15
    ensures InsertAt(Small.Pages()[3 + n].cells, 1, x)[TOY_SQL_CAPS.LeftSplit() - 1].key == 30 * n + 12
  {
    assert Small.Pages()[3 + n] == Small.PageAt(3 + n);
    assert InsertAt(Small.PageAt(3 + n).cells, 1, x)[7] == Small.CellOf(n, 6);
  }

  lemma SmallKid(r: nat, i: nat)
    requires 1 <= r <= 2 && i < 4
    ensures var q := 4 * r - 1 + i;
            && r in Small.Tree() && |Small.Tree()[r].kids| == 4 && IndexIn(Small.Tree()[r].kids, q) == i
            && q in Small.Tree() && Small.Tree()[q].parent == r && Small.Tree()[r].kids[i] == q
            && MaxBelow(Small.Tree(), Small.TOP, q) == Small.LastKey(q - 3)
  {
    var q := 4 * r - 1 + i;
    assert Small.Tree()[r] == Small.NodeOf(r) && Small.Tree()[q] == Small.NodeOf(q);
    assert Small.KidsOf(r)[i] == q;
  }

  lemma SmallVerdict(r: nat, i: nat, low: Key)
    requires 1 <= r <= 2 && i < 4 && 0 < low < 510
    ensures r in Small.Tree() && TreeOk(Small.Tree(), Small.TOP) && i < |Small.Tree()[r].kids|
    ensures Verdict(Small.TableModel(), 3, r, i, low) == if r == 1 then Wrong else Right
  {
    var g := Small.TableModel();
    Small.TreeIsOk();
    SmallKid(r, i);
    SmallKid(r, 1);
    SmallKid(r, 3);
    SmallRoot(r);
    VerdictBelow(g, 3, r, i, low, L.SlotOfNumber(if i == 3 then low else KidMax(g, r, 3)), 0, r - 1,
                 if i == 1 then low else KidMax(g, r, 1));
  }

  lemma SmallRoot(r: nat)
    requires 1 <= r <= 2
    ensures 0 in Small.Tree() && r in Small.Tree() && Small.Tree()[r].parent == 0 && |Small.Tree()[0].kids| == 2
    ensures r in Small.Tree()[0].kids && IndexIn(Small.Tree()[0].kids, r) == r - 1
  {
    assert Small.Tree()[r] == Small.NodeOf(r) && Small.Tree()[0] == Small.NodeOf(0);
    assert Small.KidsOf(0)[r - 1] == r;
  }

  // ------------------------------------------------------------------
  // Lines 237-238

  // A row for leaf number n splits every page above it. Some new node is misplaced exactly if the parent of the leaf is
  // a second child or the page above the parent is.
  method ParentFails(n: nat) returns (table: Table)
    requires n < 64
    ensures !BelowSecond(n) ==> table.Valid()
    ensures BelowSecond(n) ==> forall g :: !TableOk(TOY_SQL_CAPS, table.pages, g)
  {
    table := FullTable();
    LeafMisplaces(n);
    InsertOdd(table, n);
  }

  method InsertOdd(table: Table, n: nat)
    requires n < 64 && table.caps == TOY_SQL_CAPS
    requires CanInsert(TOY_SQL_CAPS, table.pages, table.g, 21 + n, 1, FirstKey(n) + 1)
    requires |table.pages| + PagesToInsert(TOY_SQL_CAPS, table.pages, table.g, 21 + n) <= 1027
    modifies table`pages, table`g
    ensures var wrong := InsertMisplaces(TOY_SQL_CAPS, old(table.pages), old(table.g), 21 + n);
            && (!wrong ==> table.Valid())
            && (wrong ==> forall g :: !TableOk(TOY_SQL_CAPS, table.pages, g))
  {
    var cursor := new Cursor(table, 21 + n, 1);
    LeafNodeInsertAndCopyParents(table, cursor, FirstKey(n) + 1, Row(0, []));
  }

  predicate BelowSecond(n: nat) {
    n / 4 % 4 == 1 || n / 16 == 1
  }

  // The second of these alone: leaf number 16 is below page 9, the first child of page 2.
  lemma MisplacedAbove()
    ensures Tree()[37].parent == 9 && Tree()[9].parent == 2 && Tree()[2].kids[0] == 9 && Tree()[0].kids[1] == 2
    ensures BelowSecond(16) && 16 / 4 % 4 != 1
  {
    assert Tree()[37] == NodeOf(37) && Tree()[9] == NodeOf(9) && Tree()[2] == NodeOf(2) && Tree()[0] == NodeOf(0);
  }

  lemma LeafMisplaces(n: nat)
    requires n < 64
    ensures CanInsert(TOY_SQL_CAPS, Pages(), TableModel(), 21 + n, 1, FirstKey(n) + 1)
    ensures PAGES + PagesToInsert(TOY_SQL_CAPS, Pages(), TableModel(), 21 + n) <= 1027
    ensures InsertMisplaces(TOY_SQL_CAPS, Pages(), TableModel(), 21 + n) <==> BelowSecond(n)
  {
    OddKeyFits(n);
    LeafPlace(n);
    OddKeyRoom(21 + n);
    AboveLeaf(n);
    TwoLevels(n);
    LeafsParent(n);
  }

  lemma LeafsParent(n: nat)
    requires n < 64
    ensures 21 + n in Tree() && Tree()[21 + n].parent == 5 + n / 4
    ensures 5 + n / 4 in Tree() && |Tree()[5 + n / 4].kids| == 4
    ensures Pages()[21 + n].count == 15
  {
    AboveLeaf(n);
    assert Tree()[21 + n] == NodeOf(21 + n) && Tree()[5 + n / 4] == NodeOf(5 + n / 4);
    assert Pages()[21 + n] == PageAt(21 + n);
  }

  lemma TwoLevels(n: nat)
    requires n < 64
    ensures TreeOk(Tree(), TOP) && 5 + n / 4 in Tree()
    ensures Misplaces(TableModel(), 3, 5 + n / 4) <==> BelowSecond(n)
  {
    AboveLeaf(n);
    Positions(n);
    OneLevel(5 + n / 4);
    TopLevel(1 + n / 16);
  }

  lemma Positions(n: nat)
    requires n < 64
    ensures 5 + n / 4 < 21 && n / 16 < 4 && (5 + n / 4 - 1) % 4 == n / 4 % 4
  {
  }

  lemma TopLevel(q: nat)
    requires 1 <= q <= 4
    ensures TreeOk(Tree(), TOP) && q in Tree() && (Misplaces(TableModel(), 3, q) <==> q == 2)
  {
    OneLevel(q);
  }

  // What splitting page q does to its new node, and to those above.
  lemma OneLevel(q: nat)
    requires 0 < q < 21
    ensures TreeOk(Tree(), TOP) && q in Tree() && Above(q) in Tree()
    ensures Misplaces(TableModel(), 3, q) <==> (q - 1) % 4 == 1 || Misplaces(TableModel(), 3, Above(q))
  {
    IsTable();
    ChildIndex(q);
  }

  lemma ChildIndex(q: nat)
    requires 0 < q < 21
    ensures q in Tree() && Tree()[q].parent == Above(q) && Above(q) in Tree()
    ensures |Tree()[Above(q)].kids| == 4 && IndexIn(Tree()[Above(q)].kids, q) == (q - 1) % 4
  {
    var r, j := Above(q), (q - 1) % 4;
    assert Tree()[q] == NodeOf(q) && Tree()[r] == NodeOf(r);
    assert q == 4 * r + 1 + j && KidsOf(r)[j] == q;
  }
}
