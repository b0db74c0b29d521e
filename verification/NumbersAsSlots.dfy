/**
 Line 234 of btree.cpp as it stands: after the split of an internal node, the old largest key is passed for the number
 of the separator that gets the new one. Another separator may be overwritten, or spare bytes, or bytes outside of the
 page.
 */
module NumbersAsSlots {
  import L = Layout
  import opened Sequences
  import opened BTreeShape
  import opened BTreePages
  import opened BTreeSplitting
  import opened BTreeRaising
  import opened BTreeLeaves
  import opened BTreeRoom
  import opened BTreeTable
  import opened BTreeTheorems
  import opened LateParents
  import Bare = BareTree

  // ------------------------------------------------------------------
  // What comes of it

  // Outside: a write leaves its page, and nothing is said of what follows.
  datatype Outcome = Right | Wrong | Outside

  // With the first `last` separators of a page to stay, a write to slot e in place of slot j does no harm.
  predicate Harmless(last: nat, j: nat, e: nat) {
    e == j || (last <= j && last <= e)
  }

  // A node's separators that are still there once it has got a child.
  function LastingKeys(innerMax: nat, kids: nat): nat {
    if 0 < kids <= innerMax then kids - 1 else innerMax / 2
  }

  ghost function NodeMax(g: Model, q: nat): (m: Key)
    requires TreeOk(g.t, g.top) && q in g.t
    ensures m == MaxBelow(g.t, g.top, q)
  {
    MaxBelowInRange(g.t, g.top, q);
    MaxBelow(g.t, g.top, q)
  }

  ghost function KidMax(g: Model, r: nat, k: nat): (m: Key)
    requires TreeOk(g.t, g.top) && r in g.t && k < |g.t[r].kids|
    ensures g.t[r].kids[k] in g.t && m == NodeMax(g, g.t[r].kids[k])
  {
    KidInTree(g, r, k);
    NodeMax(g, g.t[r].kids[k])
  }

  // Node r gains a child behind its child number i, whose largest key is `low` now. While the nodes are full they are
  // split, and each time the line is carried out: in the page above, with the old largest key for a number.
  ghost function Verdict(g: Model, innerMax: nat, r: nat, i: nat, low: Key): Outcome
    requires TreeOk(g.t, g.top) && r in g.t && i < |g.t[r].kids|
    decreases g.t[0].ht - g.t[r].ht
  {
    var kids := g.t[r].kids;
    if |kids| <= innerMax then Right
    else
      var number := L.SlotOfNumber(if i == innerMax then low else KidMax(g, r, innerMax));
      if number >= L.SLOTS_IN_PAGE then Outside
      else if r == 0 then if number == 0 then Right else Wrong
      else
        var q := g.t[r].parent;
        assert NodeOk(g.t, g.top, r) && NodeOk(g.t, g.top, q);
        ListedByParent(g.t, g.top, q, r);
        var j := IndexIn(g.t[q].kids, r);
        var above := Verdict(g, innerMax, q, j, if i == innerMax / 2 then low else KidMax(g, r, innerMax / 2));
        Combined(Harmless(LastingKeys(innerMax, |g.t[q].kids|), j, number), above)
  }

  // Harm at one level is not undone above.
  function Combined(harmless: bool, above: Outcome): Outcome {
    if harmless || above.Outside? then above else Wrong
  }

  // ------------------------------------------------------------------
  // The tree while it is changed

  // Tree g, as it is in g1: below node r the page n came in behind child number i, and the nodes above are the same.
  ghost predicate Follows(g: Model, g1: Model, r: nat, i: nat, n: nat, low: Key) {
    && TreeOk(g.t, g.top) && r in g.t && r in g1.t && g1.top == g.top && i < |g.t[r].kids|
    && g1.t[r] == g.t[r].(kids := InsertAt(g.t[r].kids, i + 1, n))
    && (forall q | q in g.t && g.t[q].ht > g.t[r].ht :: q in g1.t && g1.t[q] == g.t[q])
    && (forall q | q in g.t && g.t[q].ht == g.t[r].ht ::
          q in g1.t && g1.t[q].hi == g.t[q].hi && g1.t[q].ht == g.t[q].ht)
    && forall k | 0 <= k < |g.t[r].kids| ::
         && g.t[r].kids[k] in g1.t
         && MaxBelow(g1.t, g1.top, g.t[r].kids[k]) == if k == i then low else KidMax(g, r, k)
  }

  // The child that becomes the right one of the left half is the one in the middle of those before.
  lemma MiddleKid(c: Caps, kids: seq<nat>, i: nat, n: nat)
    requires |kids| == c.innerMax + 1 && i < |kids|
    ensures InsertAt(kids, i + 1, n)[Cut(c, i + 1) - 1] == kids[c.innerMax / 2]
  {
  }

  lemma FollowsSplit(c: Caps, g: Model, g1: Model, g2: Model, r: nat, i: nat, n: nat, n2: nat, low: Key, m: Key)
    requires Follows(g, g1, r, i, n, low) && |g.t[r].kids| == c.innerMax + 1 && r != 0
    requires NodeSplit(g1, g2, r, n2, m, Cut(c, i + 1))
    ensures m == if i == c.innerMax / 2 then low else KidMax(g, r, c.innerMax / 2)
    ensures var q := g.t[r].parent;
            q in g.t && r in g.t[q].kids && Follows(g, g2, q, IndexIn(g.t[q].kids, r), n2, m)
  {
    var q := g.t[r].parent;
    assert NodeOk(g.t, g.top, r);
    ListedByParent(g.t, g.top, q, r);
    var j := IndexIn(g.t[q].kids, r);
    MiddleKid(c, g.t[r].kids, i, n);
    SplitParent(g1, r, n2, m, Cut(c, i + 1), j);
    assert g1.t[q] == g.t[q];
    FollowsAbove(g, g1, g2, r, i, n, n2, low, m, Cut(c, i + 1));
    forall k | 0 <= k < |g.t[q].kids|
      ensures g.t[q].kids[k] in g2.t
      ensures MaxBelow(g2.t, g2.top, g.t[q].kids[k]) == if k == j then m else KidMax(g, q, k)
    {
      KidInTree(g, q, k);
    }
  }

  // A split changes nothing from the second height above on, and no range on the first.
  lemma FollowsAbove(g: Model, g1: Model, g2: Model, r: nat, i: nat, n: nat, n2: nat, low: Key, m: Key, cut: nat)
    requires Follows(g, g1, r, i, n, low) && r != 0 && NodeSplit(g1, g2, r, n2, m, cut)
    ensures forall q | q in g.t && g.t[q].ht > g.t[r].ht + 1 :: q in g2.t && g2.t[q] == g.t[q]
    ensures forall q | q in g.t && g.t[q].ht == g.t[r].ht + 1 ::
              q in g2.t && g2.t[q].hi == g.t[q].hi && g2.t[q].ht == g.t[q].ht
  {
    forall q | q in g.t && g.t[q].ht > g.t[r].ht
      ensures q in g2.t && g2.t[q].hi == g.t[q].hi && g2.t[q].ht == g.t[q].ht
      ensures g.t[q].ht > g.t[r].ht + 1 ==> g2.t[q] == g.t[q]
    {
      assert g1.t[q] == g.t[q];
      if q in Upper(g1.t[r].kids, cut) {
        ListedByParent(g1.t, g1.top, r, q);
      }
      ListedByParent(g1.t, g1.top, g1.t[r].parent, r);
    }
  }

  // ------------------------------------------------------------------
  // The page above a split, with the new largest key written to slot e

  // Page `page` of node r lists child number j, which was split at key m, and page n is the new half.
  ghost predicate Raising(c: Caps, page: Page, g: Model, r: nat, o: nat, n: nat, m: Key, cut: nat, j: nat) {
    && CanSplit(g.t, g.top, o, n, m, cut) && cut <= |g.t[o].kids|
    && r == g.t[o].parent && r in g.t && o in g.t[r].kids && g.t[r].ht > 0
    && BodyOk(c, page, g, r) && (r != 0 ==> page.parent == g.t[r].parent)
    && j < |g.t[r].kids| && g.t[r].kids[j] == o && Lasting(c, page) <= page.count <= |page.slots|
  }

  lemma WrittenExact(c: Caps, page: Page, page': Page, t: Nodes, t': Nodes, r: nat, m: Key, j: nat, e: nat)
    requires r in t && Sized(c, page) && InnerOk(c, page, t, r) && j < |t[r].kids|
    requires page' == Bare.NumberWritten(page, e, m) && t.Keys <= t'.Keys
    requires forall i | 0 <= i < |t[r].kids| ::
               t[r].kids[i] in t && t'[t[r].kids[i]].hi == if i == j then m else t[t[r].kids[i]].hi
    ensures Sized(c, page') && Children(page') == t[r].kids && Lasting(c, page) <= page'.count
    ensures Harmless(Lasting(c, page), j, e) ==> ExactUpTo(page', t', Lasting(c, page))
  {
    assert Children(page') == Children(page);
  }

  lemma WrittenParent(c: Caps, page: Page, page': Page, g: Model, g': Model, r: nat, o: nat, n: nat, m: Key, cut: nat,
                      j: nat, e: nat)
    requires Raising(c, page, g, r, o, n, m, cut, j) && g' == g.(t := Split(g.t, o, n, m, cut))
    requires page' == Bare.NumberWritten(page, e, m)
    ensures r in g'.t && g'.t[r] == g.t[r].(kids := InsertAt(g.t[r].kids, j + 1, n))
    ensures Sized(c, page') && Children(page') == RemoveAt(g'.t[r].kids, j + 1) && Lasting(c, page) <= page'.count
    ensures Harmless(Lasting(c, page), j, e) ==> ExactUpTo(page', g'.t, Lasting(c, page))
  {
    SplitParent(g, o, n, m, cut, j);
    WrittenExact(c, page, page', g.t, g'.t, r, m, j, e);
    InsertedRemoved(g.t[r].kids, j + 1, n);
  }

  // Where the write is harmless, the page lacks the new half and nothing else.
  lemma WrittenLists(c: Caps, page: Page, page': Page, g: Model, g': Model, r: nat, o: nat, n: nat, m: Key, cut: nat,
                     j: nat, e: nat)
    requires Raising(c, page, g, r, o, n, m, cut, j) && g' == g.(t := Split(g.t, o, n, m, cut))
    requires page' == Bare.NumberWritten(page, e, m)
    ensures r in g'.t && g'.t[r] == g.t[r].(kids := InsertAt(g.t[r].kids, j + 1, n))
    ensures Bare.Lists(c, page', g', r, j + 1)
    ensures Harmless(Lasting(c, page), j, e) ==> Lacking(c, page', g', r, j + 1)
  {
    WrittenParent(c, page, page', g, g', r, o, n, m, cut, j, e);
  }

  // Where the write does harm, a separator stays that is not its child's largest key.
  lemma WrittenWrong(c: Caps, page: Page, g: Model, r: nat, o: nat, n: nat, m: Key, cut: nat, j: nat, e: nat)
    returns (w: nat)
    requires Raising(c, page, g, r, o, n, m, cut, j) && !Harmless(Lasting(c, page), j, e)
    ensures w < Lasting(c, page) && w < |g.t[r].kids|
    ensures var t', page' := Split(g.t, o, n, m, cut), Bare.NumberWritten(page, e, m);
            && |page'.slots| == |page.slots| && page'.slots[w].child == g.t[r].kids[w] && g.t[r].kids[w] in t'
            && page'.slots[w].key != MaxBelow(t', g.top, g.t[r].kids[w])
  {
    w := if j < Lasting(c, page) then j else e;
    SplitParent(g, o, n, m, cut, j);
    assert Children(page)[w] == page.slots[w].child;
    if w != j {
      KidsAscend(g.t, g.top, r, w, j);
    }
  }

  // ------------------------------------------------------------------
  // The splits as written

  // The pages left, and whether a write left its page.
  ghost predicate ComesOut(c: Caps, s: seq<Page>, g: Model, rows: map<Key, Row>, outside: bool, v: Outcome) {
    && (outside <==> v.Outside?)
    && (v.Right? ==> TableOk(c, s, g) && g.rows == rows)
    && (v.Wrong? ==> forall g' :: !TableOk(c, s, g'))
  }

  // A separator of page r that stays and is wrong.
  ghost predicate Spoilt(c: Caps, s: seq<Page>, g: Model, r: nat, w: nat) {
    && r < |s| && r in g.t && w < Lasting(c, s[r]) && w < |s[r].slots|
    && var q := s[r].slots[w].child;
       q in g.t && g.t[q].ht + 1 == g.t[r].ht && s[r].slots[w].key != MaxBelow(g.t, g.top, q)
  }

  // The page above has a key written to it, and lacks the new page n at position pos.
  ghost predicate Raised(c: Caps, s: seq<Page>, g: Model, r: nat, n: nat, pos: nat, harmless: bool, w: nat) {
    && r in g.t && n < |s|
    && if harmless then Pending(c, s, g, r, n, pos) else Bare.AllBut(c, s, g, r, n, pos) && Spoilt(c, s, g, r, w)
  }

  // Line 234 in the page above node o.
  method RaiseByNumber(table: Table, o: nat, n: nat, r: nat, oldMax: Key,
                       ghost g': Model, ghost m: Key, ghost h: nat, ghost cut: nat, ghost j: nat)
    returns (outside: bool, harmless: bool, ghost w: nat)
    requires Ready(table.caps, table.pages, table.g, r, o, m, h) && Covers(table.g.t, o, oldMax)
    requires SplitBelow(table.caps, table.pages, table.g, g', r, o, n, m, cut, j)
    requires 2 <= |table.g.t[r].kids| <= table.caps.innerMax + 1
    modifies table`pages
    ensures |table.pages| == |old(table.pages)| && o < |table.pages| && table.pages[o] == old(table.pages)[o]
    ensures outside <==> L.SlotOfNumber(oldMax) >= L.SLOTS_IN_PAGE
    ensures harmless == Harmless(Lasting(table.caps, old(table.pages)[r]), j, L.SlotOfNumber(oldMax))
    ensures !outside ==> Raised(table.caps, table.pages, g', r, n, j + 1, harmless, w)
  {
    ghost var s := table.pages;
    ghost var newMax;
    var index;
    outside, harmless, index, newMax := WriteByNumber(table, r, o, oldMax, h);
    Found(table.caps, s, table.g, g', r, o, n, m, cut, j, oldMax, index);
    w := 0;
    if !outside {
      w := WrittenRaised(table.caps, s, table.pages, table.g, g', r, o, n, m, cut, j, L.SlotOfNumber(oldMax));
    }
  }

  // The largest key of o can be read, and the page above searched.
  ghost predicate Ready(c: Caps, s: seq<Page>, g: Model, r: nat, o: nat, m: Key, h: nat) {
    && TreeOk(g.t, g.top) && SpineOk(s, g, h) && r < |s| && o < |s| && r != o && r in g.t
    && Sized(c, s[r]) && s[r].count <= c.innerMax && SlotsAscend(s[r])
    && s[o].nodeType == INTERNAL && s[o].link in g.t && g.t[s[o].link].ht == h
    && MaxBelow(g.t, g.top, s[o].link) == m
  }

  // The search for the slot serves to tell whether the write does harm.
  method WriteByNumber(table: Table, r: nat, o: nat, oldMax: Key, ghost h: nat)
    returns (outside: bool, harmless: bool, index: nat, newMax: Key)
    requires r < |table.pages| && o < |table.pages| && Sized(table.caps, table.pages[r])
    requires table.pages[r].count <= table.caps.innerMax && SlotsAscend(table.pages[r])
    requires TreeOk(table.g.t, table.g.top) && SpineOk(table.pages, table.g, h)
    requires table.pages[o].nodeType == INTERNAL
    requires table.pages[o].link in table.g.t && table.g.t[table.pages[o].link].ht <= h
    modifies table`pages
    ensures newMax == MaxBelow(table.g.t, table.g.top, old(table.pages)[o].link)
    ensures FirstNotBelow(old(table.pages)[r], oldMax, index)
    ensures outside <==> L.SlotOfNumber(oldMax) >= L.SLOTS_IN_PAGE
    ensures harmless == Harmless(Lasting(table.caps, old(table.pages)[r]), index, L.SlotOfNumber(oldMax))
    ensures var s := old(table.pages);
            table.pages == if outside then s else s[r := Bare.NumberWritten(s[r], L.SlotOfNumber(oldMax), newMax)]
  {
    newMax := table.GetNodeMaxKey(o, h);
    index := Table.InternalNodeFindChild(table.pages[r], oldMax);
    var number := L.SlotOfNumber(oldMax);
    outside, harmless := number >= L.SLOTS_IN_PAGE, Harmless(Lasting(table.caps, table.pages[r]), index, number);
    if !outside {
      table.pages := table.pages[r := Bare.NumberWritten(table.pages[r], number, newMax)];
    }
  }

  lemma Found(c: Caps, s: seq<Page>, g: Model, g': Model, r: nat, o: nat, n: nat, m: Key, cut: nat, j: nat,
              oldMax: Key, index: nat)
    requires SplitBelow(c, s, g, g', r, o, n, m, cut, j) && TreeOk(g.t, g.top)
    requires Covers(g.t, o, oldMax) && FirstNotBelow(s[r], oldMax, index)
    ensures index == j
  {
    FindsKid(c, s[r], g, r, j, oldMax, index);
  }

  // What DivisionDone says of the page above.
  ghost predicate SplitBelow(c: Caps, s: seq<Page>, g: Model, g': Model, r: nat, o: nat, n: nat, m: Key, cut: nat,
                             j: nat) {
    && r < |s| && n < |s| && r != n && Raising(c, s[r], g, r, o, n, m, cut, j)
    && g' == g.(t := Split(g.t, o, n, m, cut)) && AlmostSplit(c, s, g', r, n)
  }

  lemma SplitBelowIs(c: Caps, s1: seq<Page>, s: seq<Page>, g: Model, g': Model, o: nat, n: nat, m: Key, cut: nat,
                     r: nat)
    requires DivisionDone(c, s1, s, g, g', o, n, m, cut) && r == g.t[o].parent && PageOk(c, s1, g, r)
    ensures SplitBelow(c, s, g, g', r, o, n, m, cut, IndexIn(g.t[r].kids, o))
    ensures |g.t[r].kids| == s[r].count + 1
  {
    ListedByParent(g.t, g.top, r, o);
    assert NodeOk(g.t, g.top, r);
    assert |Children(s[r])| == s[r].count + 1;
  }

  lemma WrittenAllBut(c: Caps, s: seq<Page>, s': seq<Page>, g: Model, g': Model, r: nat, o: nat, n: nat, m: Key,
                      cut: nat, j: nat, e: nat)
    requires SplitBelow(c, s, g, g', r, o, n, m, cut, j) && 2 <= |g.t[r].kids| <= c.innerMax + 1
    requires s' == s[r := Bare.NumberWritten(s[r], e, m)]
    ensures r in g'.t && Bare.AllBut(c, s', g', r, n, j + 1)
    ensures Harmless(Lasting(c, s[r]), j, e) ==> Lacking(c, s'[r], g', r, j + 1)
  {
    WrittenLists(c, s[r], s'[r], g, g', r, o, n, m, cut, j, e);
    WrittenAlmost(c, s, s', g', r, n);
  }

  lemma WrittenAlmost(c: Caps, s: seq<Page>, s': seq<Page>, g: Model, r: nat, n: nat)
    requires AlmostSplit(c, s, g, r, n) && r < |s| && n < |s| && |s'| == |s| && s' == s[r := s'[r]]
    ensures AlmostSplit(c, s', g, r, n)
  {
    forall q {:trigger PageOk(c, s', g, q)} | q in g.t && q != r && q != n ensures PageOk(c, s', g, q) {
      assert PageOk(c, s, g, q);
    }
  }

  lemma WrittenSpoils(c: Caps, s: seq<Page>, s': seq<Page>, g: Model, g': Model, r: nat, o: nat, n: nat, m: Key,
                      cut: nat, j: nat, e: nat) returns (w: nat)
    requires SplitBelow(c, s, g, g', r, o, n, m, cut, j) && !Harmless(Lasting(c, s[r]), j, e)
    requires s' == s[r := Bare.NumberWritten(s[r], e, m)]
    ensures Spoilt(c, s', g', r, w)
  {
    w := WrittenWrong(c, s[r], g, r, o, n, m, cut, j, e);
    WrittenParent(c, s[r], s'[r], g, g', r, o, n, m, cut, j, e);
    KidSpoilt(c, s', g', r, w, if w <= j then w else w + 1);
  }

  lemma KidSpoilt(c: Caps, s: seq<Page>, g: Model, r: nat, w: nat, k: nat)
    requires TreeOk(g.t, g.top) && r < |s| && r in g.t && w < Lasting(c, s[r]) && w < |s[r].slots|
    requires k < |g.t[r].kids| && s[r].slots[w].child == g.t[r].kids[k] && g.t[r].kids[k] in g.t
    requires s[r].slots[w].key != MaxBelow(g.t, g.top, g.t[r].kids[k])
    ensures Spoilt(c, s, g, r, w)
  {
    KidInTree(g, r, k);
  }

  lemma WrittenRaised(c: Caps, s: seq<Page>, s': seq<Page>, g: Model, g': Model, r: nat, o: nat, n: nat, m: Key,
                      cut: nat, j: nat, e: nat) returns (w: nat)
    requires SplitBelow(c, s, g, g', r, o, n, m, cut, j) && 2 <= |g.t[r].kids| <= c.innerMax + 1
    requires s' == s[r := Bare.NumberWritten(s[r], e, m)]
    ensures Raised(c, s', g', r, n, j + 1, Harmless(Lasting(c, s[r]), j, e), w)
  {
    w := 0;
    WrittenAllBut(c, s, s', g, g', r, o, n, m, cut, j, e);
    if Harmless(Lasting(c, s[r]), j, e) {
      Bare.AllButPending(c, s', g', r, n, j + 1);
    } else {
      w := WrittenSpoils(c, s, s', g, g', r, o, n, m, cut, j, e);
    }
  }

  // ------------------------------------------------------------------
  // The levels above a wrong separator

  // The page lists the children of its node in tree g, whatever its separators are.
  ghost predicate Listed(s: seq<Page>, ht: Bare.Heights, g: Model, q: nat) {
    && q in g.t && q in ht && ht[q] == g.t[q].ht && q < |s| && s[q].count <= |s[q].slots|
    && s[q].link != INVALID_PAGE_NUM && Children(s[q]) == g.t[q].kids && (q != 0 ==> s[q].parent == g.t[q].parent)
  }

  // Right children lead from the page to the node's largest key in tree g.
  ghost predicate Ends(s: seq<Page>, ht: Bare.Heights, g: Model, q: nat) {
    && TreeOk(g.t, g.top) && q in g.t && q in ht && ht[q] == g.t[q].ht
    && Bare.LastBelow(s, q, g.t[q].ht, NodeMax(g, q))
  }

  // What is known of the pages when node r of tree g has gained a child behind its child number i.
  ghost predicate Outline(s: seq<Page>, ht: Bare.Heights, g: Model, r: nat, i: nat, low: Key) {
    && TreeOk(g.t, g.top) && r in g.t && g.t[r].ht > 0 && i < |g.t[r].kids| && 0 in ht && ht[0] == g.t[0].ht
    && Listed(s, ht, g, r)
    && (forall q {:trigger Listed(s, ht, g, q)} | q in g.t && g.t[q].ht > g.t[r].ht :: Listed(s, ht, g, q))
    && (forall q {:trigger Ends(s, ht, g, q)} | q in g.t && g.t[q].ht == g.t[r].ht && q != r :: Ends(s, ht, g, q))
    && forall k | 0 <= k < |g.t[r].kids| ::
         Bare.LastBelow(s, g.t[r].kids[k], g.t[r].ht - 1, if k == i then low else KidMax(g, r, k))
  }

  lemma ListedIs(c: Caps, s: seq<Page>, g: Model, g1: Model, r: nat, i: nat, n: nat, low: Key, q: nat)
    requires Bare.AllBut(c, s, g1, r, n, i + 1) && Follows(g, g1, r, i, n, low)
    requires q in g.t && (g.t[q].ht > g.t[r].ht || q == r)
    ensures Listed(s, Bare.HeightsOf(g1), g, q)
  {
    assert NodeOk(g.t, g.top, q);
    if q == r {
      InsertedRemoved(g.t[r].kids, i + 1, n);
    } else {
      ListedByParent(g1.t, g1.top, r, n);
      assert PageOk(c, s, g1, q);
    }
  }

  lemma EndsIs(c: Caps, s: seq<Page>, g: Model, g1: Model, r: nat, i: nat, n: nat, low: Key, q: nat)
    requires Bare.AllBut(c, s, g1, r, n, i + 1) && Follows(g, g1, r, i, n, low)
    requires q in g.t && g.t[q].ht == g.t[r].ht && q != r
    ensures Ends(s, Bare.HeightsOf(g1), g, q)
  {
    ListedByParent(g1.t, g1.top, r, n);
    assert PageOk(c, s, g1, q);
    Bare.BodyLast(c, s[q], g1, q);
    Bare.LastInTree(c, s, g1, r, n, s[q].link, NodeMax(g, q));
  }

  lemma KidEndsIs(c: Caps, s: seq<Page>, g: Model, g1: Model, r: nat, i: nat, n: nat, low: Key, k: nat)
    requires Bare.AllBut(c, s, g1, r, n, i + 1) && Follows(g, g1, r, i, n, low) && k < |g.t[r].kids|
    ensures Bare.LastBelow(s, g.t[r].kids[k], g.t[r].ht - 1, if k == i then low else KidMax(g, r, k))
  {
    KidInTree(g1, r, if k <= i then k else k + 1);
    Bare.LastInTree(c, s, g1, r, n, g.t[r].kids[k], if k == i then low else KidMax(g, r, k));
  }

  lemma OutlineIs(c: Caps, s: seq<Page>, g: Model, g1: Model, r: nat, i: nat, n: nat, low: Key)
    requires Bare.AllBut(c, s, g1, r, n, i + 1) && Follows(g, g1, r, i, n, low)
    ensures Outline(s, Bare.HeightsOf(g1), g, r, i, low)
  {
    var ht := Bare.HeightsOf(g1);
    assert NodeOk(g.t, g.top, r) && NodeOk(g.t, g.top, 0);
    ListedIs(c, s, g, g1, r, i, n, low, r);
    forall q {:trigger Listed(s, ht, g, q)} | q in g.t && g.t[q].ht > g.t[r].ht ensures Listed(s, ht, g, q) {
      ListedIs(c, s, g, g1, r, i, n, low, q);
    }
    forall q {:trigger Ends(s, ht, g, q)} | q in g.t && g.t[q].ht == g.t[r].ht && q != r ensures Ends(s, ht, g, q) {
      EndsIs(c, s, g, g1, r, i, n, low, q);
    }
    forall k | 0 <= k < |g.t[r].kids|
      ensures Bare.LastBelow(s, g.t[r].kids[k], g.t[r].ht - 1, if k == i then low else KidMax(g, r, k))
    {
      KidEndsIs(c, s, g, g1, r, i, n, low, k);
    }
  }

  // A page beside the divided one ends as before.
  lemma EndsStay(c: Caps, s0: seq<Page>, s: seq<Page>, ht: Bare.Heights, p: nat, n: nat, q: nat, key: Key)
    requires Bare.Bare(c, s0, ht) && Bare.Beside(c, s0, s, ht, p, n)
    requires Bare.At(ht, ht[p], q) && q != p && Bare.LastBelow(s0, q, ht[p], key)
    ensures Bare.LastBelow(s, q, ht[p], key)
  {
    assert SameBody(s0, s, q) && Bare.BareAt(c, s0, ht, q);
    if ht[p] > 0 {
      Bare.LastBelowSame(c, s0, s, ht, s0[q].link, ht[p] - 1, key);
    }
  }

  lemma ListedStays(s0: seq<Page>, s: seq<Page>, ht: Bare.Heights, ht': Bare.Heights, g: Model, q: nat)
    requires Listed(s0, ht, g, q) && Bare.SameHead(s0, s, q) && q in ht' && ht'[q] == ht[q]
    ensures Listed(s, ht', g, q)
  {
    assert Children(s[q]) == Children(s0[q]);
  }

  // A page of the height above the divided one, but not the one above it, ends as before.
  lemma EndsAbove(c: Caps, s0: seq<Page>, s: seq<Page>, ht: Bare.Heights, g: Model, p: nat, i: nat, low: Key, n: nat,
                  q: nat)
    requires Bare.Bare(c, s0, ht) && Bare.Beside(c, s0, s, ht, p, n) && Outline(s0, ht, g, p, i, low) && n !in ht
    requires q in g.t && g.t[q].ht == g.t[p].ht + 1 && g.t[p].parent != q && p != 0
    ensures Ends(s, ht[n := ht[p]], g, q)
  {
    assert Listed(s0, ht, g, q) && Bare.SameHead(s0, s, q) && Bare.BareAt(c, s0, ht, q);
    MaxBelowInRange(g.t, g.top, q);
    assert Children(s0[q])[s0[q].count] == s0[q].link;
    ListedByParent(g.t, g.top, q, s0[q].link);
    assert Ends(s0, ht, g, s0[q].link);
    EndsStay(c, s0, s, ht, p, n, s0[q].link, NodeMax(g, q));
  }

  // The children of the page above the divided one.
  lemma KidEnds(c: Caps, s0: seq<Page>, s: seq<Page>, ht: Bare.Heights, g: Model, p: nat, i: nat, low: Key, n: nat,
                q: nat, k: nat, low': Key)
    requires Bare.Bare(c, s0, ht) && Bare.Beside(c, s0, s, ht, p, n) && Outline(s0, ht, g, p, i, low)
    requires p != 0 && q == g.t[p].parent && q in g.t && p in g.t[q].kids && k < |g.t[q].kids|
    requires |g.t[p].kids| == c.innerMax + 1 && c.innerMax / 2 < |s0[p].slots|
    requires s[p].link == s0[p].slots[c.innerMax / 2].child
    requires low' == if i == c.innerMax / 2 then low else KidMax(g, p, c.innerMax / 2)
    ensures Bare.LastBelow(s, g.t[q].kids[k], g.t[p].ht, if k == IndexIn(g.t[q].kids, p) then low' else KidMax(g, q, k))
  {
    KidsDistinct(g.t, g.top, q);
    ListedByParent(g.t, g.top, q, g.t[q].kids[k]);
    ListedByParent(g.t, g.top, q, p);
    if k == IndexIn(g.t[q].kids, p) {
      assert Children(s0[p])[c.innerMax / 2] == s[p].link;
      assert Bare.BareAt(c, s0, ht, p);
      Bare.LastBelowSame(c, s0, s, ht, s[p].link, g.t[p].ht - 1, low');
    } else {
      assert g.t[q].kids[k] != p;
      assert Ends(s0, ht, g, g.t[q].kids[k]);
      EndsStay(c, s0, s, ht, p, n, g.t[q].kids[k], KidMax(g, q, k));
    }
  }

  lemma OutlineStep(c: Caps, s0: seq<Page>, s: seq<Page>, ht: Bare.Heights, g: Model, p: nat, i: nat, low: Key, n: nat,
                    low': Key)
    requires Bare.Bare(c, s0, ht) && Bare.Beside(c, s0, s, ht, p, n) && Outline(s0, ht, g, p, i, low) && n !in ht
    requires p != 0 && |g.t[p].kids| == c.innerMax + 1 && c.innerMax / 2 < |s0[p].slots|
    requires s[p].link == s0[p].slots[c.innerMax / 2].child
    requires low' == if i == c.innerMax / 2 then low else KidMax(g, p, c.innerMax / 2)
    ensures var q := g.t[p].parent;
            && q in g.t && p in g.t[q].kids && s0[p].parent == q
            && Outline(s, ht[n := ht[p]], g, q, IndexIn(g.t[q].kids, p), low')
  {
    var q, ht' := g.t[p].parent, ht[n := ht[p]];
    assert NodeOk(g.t, g.top, p);
    ListedByParent(g.t, g.top, q, p);
    forall a {:trigger Listed(s, ht', g, a)} | a in g.t && g.t[a].ht >= g.t[q].ht ensures Listed(s, ht', g, a) {
      assert Listed(s0, ht, g, a) && Bare.SameHead(s0, s, a);
      ListedStays(s0, s, ht, ht', g, a);
    }
    forall a {:trigger Ends(s, ht', g, a)} | a in g.t && g.t[a].ht == g.t[q].ht && a != q ensures Ends(s, ht', g, a) {
      EndsAbove(c, s0, s, ht, g, p, i, low, n, a);
    }
    forall k | 0 <= k < |g.t[q].kids|
      ensures Bare.LastBelow(s, g.t[q].kids[k], g.t[q].ht - 1,
                             if k == IndexIn(g.t[q].kids, p) then low' else KidMax(g, q, k))
    {
      KidEnds(c, s0, s, ht, g, p, i, low, n, q, k, low');
    }
  }

  // internal_node_insert of a page x that belongs to page r, with line 234 as written: whether a write leaves its page
  // is told from the tree. If none does, page o has the slots of r that last, and all below is as before.
  method InsertOnward(table: Table, r: nat, x: nat, ghost ht: Bare.Heights, ghost g: Model, ghost i: nat,
                      ghost low: Key)
    returns (ghost o: nat, outside: bool)
    requires Bare.Bare(table.caps, table.pages, ht) && r in ht && ht[r] > 0 && Bare.At(ht, ht[r] - 1, x)
    requires |table.pages| + Bare.Gain(table.caps, table.pages, ht, r) <= FILE_PAGES_NUM
    requires Outline(table.pages, ht, g, r, i, low)
    modifies table`pages
    ensures outside <==> Verdict(g, table.caps.innerMax, r, i, low).Outside?
    ensures !outside ==> Bare.Inserted(table.caps, old(table.pages), table.pages, ht, r, o)
    decreases ht[0] - ht[r], 1
  {
    ghost var s0 := table.pages;
    assert Bare.BareAt(table.caps, s0, ht, r) && Bare.ParentAt(s0, ht, r);
    assert |Children(s0[r])| == s0[r].count + 1 == |g.t[r].kids|;
    if table.pages[r].count >= table.caps.innerMax {
      o, outside := SplitOnward(table, r, x, ht, g, i, low);
      return;
    }
    Bare.Place(table, r, x, Bare.NumberAsSlot, ht, ht[r] - 1);
    o, outside := r, false;
    Bare.PlacedInserted(table.caps, s0, table.pages, ht, r, x);
  }

  method SplitOnward(table: Table, p: nat, x: nat, ghost ht: Bare.Heights, ghost g: Model, ghost i: nat, ghost low: Key)
    returns (ghost o: nat, outside: bool)
    requires Bare.CanSplitPage(table.caps, table.pages, ht, p, x)
    requires |table.pages| + Bare.Gain(table.caps, table.pages, ht, p) <= FILE_PAGES_NUM
    requires Outline(table.pages, ht, g, p, i, low)
    modifies table`pages
    ensures outside <==> Verdict(g, table.caps.innerMax, p, i, low).Outside?
    ensures !outside ==> Bare.Inserted(table.caps, old(table.pages), table.pages, ht, p, o)
    decreases ht[0] - ht[p], 0
  {
    ghost var s0 := table.pages;
    assert Bare.BareAt(table.caps, s0, ht, p) && Bare.ParentAt(s0, ht, p);
    o := p;
    if table.pages[p].isRoot {
      o, outside := Bare.SplitRoot(table, x, Bare.NumberAsSlot, ht);
      OutlineVerdict(table.caps, s0, ht, g, p, i, low, outside);
      return;
    }
    var r, n;
    r, n, outside := Bare.DividePage(table, p, x, Bare.NumberAsSlot, ht);
    OutlineVerdict(table.caps, s0, ht, g, p, i, low, outside);
    if outside {
      return;
    }
    ghost var s, ht' := table.pages, ht[n := ht[p]];
    ghost var low' := if i == table.caps.innerMax / 2 then low else KidMax(g, p, table.caps.innerMax / 2);
    Bare.BesideGain(table.caps, s0, s, ht, p, n, r);
    OutlineStep(table.caps, s0, s, ht, g, p, i, low, n, low');
    ghost var above;
    above, outside := InsertOnward(table, r, n, ht', g, IndexIn(g.t[r].kids, p), low');
    if !outside {
      Bare.BesideInserted(table.caps, s0, s, table.pages, ht, p, n, r, above);
    }
  }

  // The number is the one that the verdict looks at.
  lemma OutlineVerdict(c: Caps, s: seq<Page>, ht: Bare.Heights, g: Model, p: nat, i: nat, low: Key, outside: bool)
    requires Outline(s, ht, g, p, i, low) && s[p].count == c.innerMax
    requires Bare.OutsideIf(s, p, g.t[p].ht - 1, outside)
    ensures |g.t[p].kids| == c.innerMax + 1
    ensures outside || p == 0 ==> (outside <==> Verdict(g, c.innerMax, p, i, low).Outside?)
    ensures !outside && p != 0 ==>
              var q := g.t[p].parent;
              && q in g.t && p in g.t[q].kids
              && (Verdict(g, c.innerMax, p, i, low).Outside? <==>
                  Verdict(g, c.innerMax, q, IndexIn(g.t[q].kids, p),
                          if i == c.innerMax / 2 then low else KidMax(g, p, c.innerMax / 2)).Outside?)
  {
    var key := if i == c.innerMax then low else KidMax(g, p, c.innerMax);
    assert |Children(s[p])| == s[p].count + 1;
    assert Children(s[p])[c.innerMax] == s[p].link;
    assert Bare.LastBelow(s, s[p].link, g.t[p].ht - 1, key);
    assert NodeOk(g.t, g.top, p);
    if p != 0 {
      ListedByParent(g.t, g.top, g.t[p].parent, p);
    }
  }

  // With a wrong separator that stays, the levels above cannot make a table of it.
  method InsertSpoilt(table: Table, r: nat, n: nat, ghost g: Model, ghost g1: Model, ghost i: nat, ghost low: Key,
                      ghost w: nat) returns (outside: bool)
    requires Bare.AllBut(table.caps, table.pages, g1, r, n, i + 1) && Spoilt(table.caps, table.pages, g1, r, w)
    requires table.pages[n].parent == r && Follows(g, g1, r, i, n, low)
    requires |table.pages| + PagesToSettle(g1, table.caps.innerMax, r) <= FILE_PAGES_NUM
    modifies table`pages
    ensures outside <==> Verdict(g, table.caps.innerMax, r, i, low).Outside?
    ensures !outside ==> forall g' :: !TableOk(table.caps, table.pages, g')
  {
    ghost var key := SpoiltStart(table.caps, table.pages, g, g1, r, n, i, low, w);
    outside := InsertWrong(table, r, n, Bare.HeightsOf(g1), g, i, low, w, key);
  }

  // Page r, which gains page n, has a page in slot w with another key than the last one below, and the slot lasts.
  ghost predicate HasWrong(c: Caps, s: seq<Page>, ht: Bare.Heights, g: Model, r: nat, n: nat, i: nat, low: Key, w: nat,
                           key: Key) {
    && Bare.Bare(c, s, ht) && r in ht && ht[r] > 0 && Bare.At(ht, ht[r] - 1, n)
    && |s| + Bare.Gain(c, s, ht, r) <= FILE_PAGES_NUM && Outline(s, ht, g, r, i, low)
    && r < |s| && w < Lasting(c, s[r]) && w < |s[r].slots|
    && var x := s[r].slots[w];
       Bare.At(ht, ht[r] - 1, x.child) && Bare.LastBelow(s, x.child, ht[r] - 1, key) && x.key != key
  }

  lemma SpoiltStart(c: Caps, s: seq<Page>, g: Model, g1: Model, r: nat, n: nat, i: nat, low: Key, w: nat)
    returns (key: Key)
    requires Bare.AllBut(c, s, g1, r, n, i + 1) && Spoilt(c, s, g1, r, w) && s[n].parent == r
    requires Follows(g, g1, r, i, n, low) && |s| + PagesToSettle(g1, c.innerMax, r) <= FILE_PAGES_NUM
    ensures HasWrong(c, s, Bare.HeightsOf(g1), g, r, n, i, low, w, key)
  {
    key := SpoiltMax(c, s, g1, r, n, i + 1, w);
    KidInTree(g1, r, i + 1);
    Bare.AllButGain(c, s, g1, r, n, i + 1);
    OutlineIs(c, s, g, g1, r, i, n, low);
  }

  method InsertWrong(table: Table, r: nat, n: nat, ghost ht: Bare.Heights, ghost g: Model, ghost i: nat, ghost low: Key,
                     ghost w: nat, ghost key: Key) returns (outside: bool)
    requires HasWrong(table.caps, table.pages, ht, g, r, n, i, low, w, key)
    modifies table`pages
    ensures outside <==> Verdict(g, table.caps.innerMax, r, i, low).Outside?
    ensures !outside ==> forall g' :: !TableOk(table.caps, table.pages, g')
  {
    ghost var s := table.pages;
    ghost var o;
    o, outside := InsertOnward(table, r, n, ht, g, i, low);
    if !outside {
      Bare.WrongKeyStays(table.caps, s, table.pages, ht, r, o, w, ht[r] - 1, key);
      Bare.WrongKeyNoTable(table.caps, table.pages, o, s[r].slots[w], ht[r] - 1, key);
    }
  }

  lemma SpoiltMax(c: Caps, s: seq<Page>, g: Model, r: nat, n: nat, pos: nat, w: nat) returns (key: Key)
    requires Bare.AllBut(c, s, g, r, n, pos) && Spoilt(c, s, g, r, w)
    ensures var q := s[r].slots[w].child;
            && s[r].slots[w].key != key && g.t[r].ht > 0 && Bare.At(Bare.HeightsOf(g), g.t[r].ht - 1, q)
            && Bare.LastBelow(s, q, g.t[r].ht - 1, key)
  {
    var q := s[r].slots[w].child;
    MaxBelowInRange(g.t, g.top, q);
    key := MaxBelow(g.t, g.top, q);
    Bare.LastInTree(c, s, g, r, n, q, key);
  }

  // ------------------------------------------------------------------
  // The levels up to there

  // The number passed is the key that the verdict looks at.
  lemma NumberIs(c: Caps, s: seq<Page>, g: Model, g1: Model, r: nat, i: nat, n: nat, low: Key)
    requires Pending(c, s, g1, r, n, i + 1) && |g1.t[r].kids| == c.innerMax + 2 && Follows(g, g1, r, i, n, low)
    ensures |g.t[r].kids| == c.innerMax + 1 && s[r].link in g1.t
    ensures MaxBelow(g1.t, g1.top, s[r].link) == if i == c.innerMax then low else KidMax(g, r, c.innerMax)
  {
    LinkIs(s[r], g.t[r].kids, i, n);
    FollowsMax(g, g1, r, i, n, low, c.innerMax);
  }

  lemma LinkIs(page: Page, kids: seq<nat>, i: nat, n: nat)
    requires page.count <= |page.slots| && page.link != INVALID_PAGE_NUM && i < |kids|
    requires Children(page) == RemoveAt(InsertAt(kids, i + 1, n), i + 1)
    ensures |kids| == page.count + 1 && page.link == kids[page.count]
  {
    InsertedRemoved(kids, i + 1, n);
    assert Children(page)[page.count] == page.link;
  }

  lemma FollowsMax(g: Model, g1: Model, r: nat, i: nat, n: nat, low: Key, k: nat)
    requires Follows(g, g1, r, i, n, low) && k < |g.t[r].kids|
    ensures g.t[r].kids[k] in g1.t
    ensures MaxBelow(g1.t, g1.top, g.t[r].kids[k]) == if k == i then low else KidMax(g, r, k)
  {
  }

  // Another parent for the new page changes nothing.
  lemma RaisedReparented(c: Caps, s: seq<Page>, g: Model, r: nat, n: nat, pos: nat, harmless: bool, w: nat, v: nat)
    requires Raised(c, s, g, r, n, pos, harmless, w)
    ensures Raised(c, s[n := s[n].(parent := v)], g, r, n, pos, harmless, w)
  {
    if harmless {
      PendingReparented(c, s, g, r, n, pos, v);
    } else {
      ReparentedBody(c, s[n], g, n, v);
      AlmostReparented(c, s, g, r, n, v);
    }
  }

  lemma AlmostReparented(c: Caps, s: seq<Page>, g: Model, r: nat, n: nat, v: nat)
    requires AlmostSplit(c, s, g, r, n) && n < |s|
    ensures AlmostSplit(c, s[n := s[n].(parent := v)], g, r, n)
  {
    var s' := s[n := s[n].(parent := v)];
    ReparentedBody(c, s[n], g, n, v);
    forall q {:trigger PageOk(c, s', g, q)} | q in g.t && q != r && q != n ensures PageOk(c, s', g, q) {
      assert PageOk(c, s, g, q);
    }
  }

  // Lines 194 to 232 on a node other than the root.
  method DivideReady(table: Table, p: nat, x: nat, ghost pos: nat)
    returns (r: nat, n: nat, oldMax: Key, ghost g': Model, ghost m: Key)
    requires Pending(table.caps, table.pages, table.g, p, x, pos) && |table.g.t[p].kids| == table.caps.innerMax + 2
    requires p != 0 && |table.pages| + PagesToSettle(table.g, table.caps.innerMax, p) <= FILE_PAGES_NUM
    modifies table`pages, table`g
    ensures table.g == old(table.g) && NodeSplit(table.g, g', p, n, m, Cut(table.caps, pos))
    ensures r == table.g.t[p].parent && Covers(table.g.t, p, oldMax)
    ensures old(table.pages)[p].link in table.g.t
    ensures oldMax == MaxBelow(table.g.t, table.g.top, old(table.pages)[p].link)
    ensures Ready(table.caps, table.pages, table.g, r, p, m, table.g.t[p].ht - 1) && table.pages[p].parent == r
    ensures var j := IndexIn(table.g.t[r].kids, p);
            SplitBelow(table.caps, table.pages, table.g, g', r, p, n, m, Cut(table.caps, pos), j)
    ensures |table.g.t[r].kids| == table.pages[r].count + 1 && 2 <= |table.g.t[r].kids| <= table.caps.innerMax + 1
    ensures |table.pages| + PagesToSettle(g', table.caps.innerMax, r) <= FILE_PAGES_NUM
  {
    var childMax;
    oldMax, childMax := Maxima(table, p, x, pos);
    r, n := table.PrepareInner(p, x, pos);
    ghost var s1 := table.pages;
    g', m := table.DivideTree(p, n, x, childMax, pos);
    SettleAfterSplit(table.g, p, n, m, Cut(table.caps, pos), table.caps.innerMax);
    ReadyIs(table.caps, s1, table.pages, table.g, g', p, n, m, Cut(table.caps, pos), r);
    SplitBelowIs(table.caps, s1, table.pages, table.g, g', p, n, m, Cut(table.caps, pos), r);
  }

  // Lines 194 to 238, with line 238 before line 237.
  method DivideByNumber(table: Table, p: nat, x: nat, ghost pos: nat)
    returns (r: nat, n: nat, outside: bool, harmless: bool, ghost g': Model, ghost m: Key, ghost j: nat, ghost w: nat)
    requires Pending(table.caps, table.pages, table.g, p, x, pos) && |table.g.t[p].kids| == table.caps.innerMax + 2
    requires p != 0 && |table.pages| + PagesToSettle(table.g, table.caps.innerMax, p) <= FILE_PAGES_NUM
    modifies table`pages, table`g
    ensures table.g == old(table.g) && NodeSplit(table.g, g', p, n, m, Cut(table.caps, pos))
    ensures r == table.g.t[p].parent && j == IndexIn(table.g.t[r].kids, p)
    ensures var number := NumberOf(old(table.pages), table.g, p);
            && (outside <==> number >= L.SLOTS_IN_PAGE)
            && harmless == Harmless(LastingKeys(table.caps.innerMax, |table.g.t[r].kids|), j, number)
    ensures n < |table.pages| && (!outside ==> table.pages[n].parent == r)
    ensures !outside ==> Raised(table.caps, table.pages, g', r, n, j + 1, harmless, w)
    ensures TreeOk(g'.t, g'.top) && r in g'.t
    ensures |table.pages| + PagesToSettle(g', table.caps.innerMax, r) <= FILE_PAGES_NUM
  {
    var oldMax;
    r, n, oldMax, g', m := DivideReady(table, p, x, pos);
    j := IndexIn(table.g.t[r].kids, p);
    outside, harmless, w :=
      RaiseAndCopyParent(table, p, n, r, oldMax, g', m, table.g.t[p].ht - 1, Cut(table.caps, pos), j);
  }

  // Lines 234 to 238.
  method RaiseAndCopyParent(table: Table, o: nat, n: nat, r: nat, oldMax: Key,
                            ghost g': Model, ghost m: Key, ghost h: nat, ghost cut: nat, ghost j: nat)
    returns (outside: bool, harmless: bool, ghost w: nat)
    requires Ready(table.caps, table.pages, table.g, r, o, m, h) && Covers(table.g.t, o, oldMax)
    requires SplitBelow(table.caps, table.pages, table.g, g', r, o, n, m, cut, j) && table.pages[o].parent == r
    requires 2 <= |table.g.t[r].kids| <= table.caps.innerMax + 1
    modifies table`pages
    ensures |table.pages| == |old(table.pages)| && n < |table.pages|
    ensures outside <==> L.SlotOfNumber(oldMax) >= L.SLOTS_IN_PAGE
    ensures harmless == Harmless(Lasting(table.caps, old(table.pages)[r]), j, L.SlotOfNumber(oldMax))
    ensures !outside ==> Raised(table.caps, table.pages, g', r, n, j + 1, harmless, w)
    ensures !outside ==> table.pages[n].parent == r
  {
    outside, harmless, w := RaiseByNumber(table, o, n, r, oldMax, g', m, h, cut, j);
    if !outside {
      CopyParent(table, o, n, g', r, j + 1, harmless, w);
    }
  }

  method CopyParent(table: Table, p: nat, n: nat, ghost g: Model, ghost r: nat, ghost pos: nat, ghost harmless: bool,
                    ghost w: nat)
    requires Raised(table.caps, table.pages, g, r, n, pos, harmless, w)
    requires p < |table.pages| && table.pages[p].parent == r
    modifies table`pages
    ensures Raised(table.caps, table.pages, g, r, n, pos, harmless, w)
    ensures |table.pages| == |old(table.pages)| && table.pages[n].parent == r
  {
    RaisedReparented(table.caps, table.pages, g, r, n, pos, harmless, w, table.pages[p].parent);
    table.pages := table.pages[n := table.pages[n].(parent := table.pages[p].parent)];
  }

  // The number of the slot that the old largest key of node p is taken for.
  ghost function NumberOf(s: seq<Page>, g: Model, p: nat): nat {
    if p < |s| && s[p].link in g.t && 0 <= MaxBelow(g.t, g.top, s[p].link) < INF
    then L.SlotOfNumber(MaxBelow(g.t, g.top, s[p].link)) else 0
  }

  lemma ReadyIs(c: Caps, s1: seq<Page>, s: seq<Page>, g: Model, g': Model, o: nat, n: nat, m: Key, cut: nat, r: nat)
    requires DivisionDone(c, s1, s, g, g', o, n, m, cut) && r == g.t[o].parent && PageOk(c, s1, g, r)
    ensures Ready(c, s, g, r, o, m, g.t[o].ht - 1) && s[o].parent == r
  {
    InnerSearchable(c, s1, s, g, g', o, n, m, cut, r);
  }

  lemma VerdictStep(c: Caps, s: seq<Page>, g: Model, g1: Model, p: nat, i: nat, x: nat, low: Key)
    requires Pending(c, s, g1, p, x, i + 1) && |g1.t[p].kids| == c.innerMax + 2 && Follows(g, g1, p, i, x, low)
    ensures |g.t[p].kids| == c.innerMax + 1
    ensures var number, v := NumberOf(s, g1, p), Verdict(g, c.innerMax, p, i, low);
            && (number >= L.SLOTS_IN_PAGE ==> v == Outside)
            && (number < L.SLOTS_IN_PAGE && p == 0 ==> v == if number == 0 then Right else Wrong)
            && (number < L.SLOTS_IN_PAGE && p != 0 ==>
                  var q := g.t[p].parent;
                  && q in g.t && p in g.t[q].kids && q in g1.t && g1.t[q] == g.t[q] && g.t[q].ht == g.t[p].ht + 1
                  && var j := IndexIn(g.t[q].kids, p);
                     v == Combined(Harmless(LastingKeys(c.innerMax, |g.t[q].kids|), j, number),
                                   Verdict(g, c.innerMax, q, j,
                                           if i == c.innerMax / 2 then low else KidMax(g, p, c.innerMax / 2))))
  {
    NumberIs(c, s, g, g1, p, i, x, low);
    assert NodeOk(g.t, g.top, p);
    if p != 0 {
      ListedByParent(g.t, g.top, g.t[p].parent, p);
    }
  }

  // internal_node_insert for a node that lacks its child behind number i, with line 234 as written at every level.
  method InsertByNumber(table: Table, r: nat, n: nat, ghost g: Model, ghost i: nat, ghost low: Key)
    returns (outside: bool)
    requires Pending(table.caps, table.pages, table.g, r, n, i + 1) && table.pages[n].parent == r
    requires Follows(g, table.g, r, i, n, low)
    requires |table.pages| + PagesToSettle(table.g, table.caps.innerMax, r) <= FILE_PAGES_NUM
    modifies table`pages, table`g
    ensures ComesOut(table.caps, table.pages, table.g, old(table.g.rows), outside,
                     Verdict(g, table.caps.innerMax, r, i, low))
    decreases g.t[0].ht - g.t[r].ht, 2
  {
    PendingInsertable(table.caps, table.pages, table.g, r, n, i + 1);
    assert |table.g.t[r].kids| == |g.t[r].kids| + 1;
    if table.pages[r].count < table.caps.innerMax {
      table.InsertAndSettle(r, n, table.g.t[r].ht - 1, i + 1);
      outside := false;
    } else {
      outside := SplitByNumber(table, r, n, g, i, low);
    }
  }

  // internal_node_split_and_insert with line 234 as written.
  method SplitByNumber(table: Table, p: nat, x: nat, ghost g: Model, ghost i: nat, ghost low: Key)
    returns (outside: bool)
    requires Pending(table.caps, table.pages, table.g, p, x, i + 1) && |table.g.t[p].kids| == table.caps.innerMax + 2
    requires Follows(g, table.g, p, i, x, low)
    requires |table.pages| + PagesToSettle(table.g, table.caps.innerMax, p) <= FILE_PAGES_NUM
    modifies table`pages, table`g
    ensures ComesOut(table.caps, table.pages, table.g, old(table.g.rows), outside,
                     Verdict(g, table.caps.innerMax, p, i, low))
    decreases g.t[0].ht - g.t[p].ht, 1
  {
    VerdictStep(table.caps, table.pages, g, table.g, p, i, x, low);
    if table.pages[p].isRoot {
      outside := SplitRootByNumber(table, x, i + 1);
    } else {
      outside := SplitInnerByNumber(table, p, x, g, i, low);
    }
  }

  method SplitInnerByNumber(table: Table, p: nat, x: nat, ghost g: Model, ghost i: nat, ghost low: Key)
    returns (outside: bool)
    requires Pending(table.caps, table.pages, table.g, p, x, i + 1) && |table.g.t[p].kids| == table.caps.innerMax + 2
    requires Follows(g, table.g, p, i, x, low) && p != 0
    requires |table.pages| + PagesToSettle(table.g, table.caps.innerMax, p) <= FILE_PAGES_NUM
    modifies table`pages, table`g
    ensures ComesOut(table.caps, table.pages, table.g, old(table.g.rows), outside,
                     Verdict(g, table.caps.innerMax, p, i, low))
    decreases g.t[0].ht - g.t[p].ht, 0
  {
    ghost var s, g1 := table.pages, table.g;
    var r, n, harmless;
    ghost var g', m, j, w;
    r, n, outside, harmless, g', m, j, w := DivideByNumber(table, p, x, i + 1);
    InnerStep(table.caps, s, g, g1, g', p, x, i, low, r, n, m);
    if !outside {
      outside := GoOn(table, r, n, g, g', j, m, harmless, w);
    }
  }

  lemma InnerStep(c: Caps, s: seq<Page>, g: Model, g1: Model, g': Model, p: nat, x: nat, i: nat, low: Key,
                  r: nat, n: nat, m: Key)
    requires Pending(c, s, g1, p, x, i + 1) && |g1.t[p].kids| == c.innerMax + 2 && Follows(g, g1, p, i, x, low)
    requires p != 0 && r == g1.t[p].parent && NodeSplit(g1, g', p, n, m, Cut(c, i + 1))
    ensures r in g.t && p in g.t[r].kids && g1.t[r] == g.t[r] && g.t[p].ht < g.t[r].ht <= g.t[0].ht
    ensures Follows(g, g', r, IndexIn(g1.t[r].kids, p), n, m) && TreeOk(g'.t, g'.top)
    ensures var number, j := NumberOf(s, g1, p), IndexIn(g1.t[r].kids, p);
            Verdict(g, c.innerMax, p, i, low) ==
            if number >= L.SLOTS_IN_PAGE then Outside
            else Combined(Harmless(LastingKeys(c.innerMax, |g1.t[r].kids|), j, number), Verdict(g, c.innerMax, r, j, m))
  {
    VerdictStep(c, s, g, g1, p, i, x, low);
    FollowsSplit(c, g, g1, g', p, i, x, n, low, m);
    assert NodeOk(g.t, g.top, r);
    SplitOk(g1.t, g1.top, p, n, m, Cut(c, i + 1));
  }

  // Line 237. Both branches carry out the same lines; what is proved of them differs.
  method GoOn(table: Table, r: nat, n: nat, ghost g: Model, ghost g': Model, ghost j: nat, ghost m: Key,
              harmless: bool, ghost w: nat) returns (outside: bool)
    requires Raised(table.caps, table.pages, g', r, n, j + 1, harmless, w) && table.pages[n].parent == r
    requires Follows(g, g', r, j, n, m) && TreeOk(g'.t, g'.top) && g'.rows == table.g.rows
    requires |table.pages| + PagesToSettle(g', table.caps.innerMax, r) <= FILE_PAGES_NUM
    modifies table`pages, table`g
    ensures ComesOut(table.caps, table.pages, table.g, old(table.g.rows), outside,
                     Combined(harmless, Verdict(g, table.caps.innerMax, r, j, m)))
    decreases g.t[0].ht - g.t[r].ht, 3
  {
    if harmless {
      table.g := g';
      outside := InsertByNumber(table, r, n, g, j, m);
    } else {
      outside := InsertSpoilt(table, r, n, g, g', j, m, w);
    }
  }

  // On the root: right exactly if the number is 0, that of the left half.
  method SplitRootByNumber(table: Table, x: nat, ghost pos: nat) returns (outside: bool)
    requires Pending(table.caps, table.pages, table.g, 0, x, pos) && |table.g.t[0].kids| == table.caps.innerMax + 2
    requires |table.pages| + 2 <= FILE_PAGES_NUM
    modifies table`pages, table`g
    ensures var number := NumberOf(old(table.pages), old(table.g), 0);
            ComesOut(table.caps, table.pages, table.g, old(table.g.rows), outside,
                     if number >= L.SLOTS_IN_PAGE then Outside else if number == 0 then Right else Wrong)
  {
    var o, n, oldMax;
    ghost var g', m, s1;
    o, n, oldMax, g', m, s1 := DivideRootReady(table, x, pos);
    outside := FinishByNumber(table, o, n, oldMax, g', m, table.g.t[o].ht - 1, Cut(table.caps, pos), s1);
  }

  // Lines 189 to 232 on the root.
  method DivideRootReady(table: Table, x: nat, ghost pos: nat)
    returns (o: nat, n: nat, oldMax: Key, ghost g': Model, ghost m: Key, ghost s1: seq<Page>)
    requires Pending(table.caps, table.pages, table.g, 0, x, pos) && |table.g.t[0].kids| == table.caps.innerMax + 2
    requires |table.pages| + 2 <= FILE_PAGES_NUM
    modifies table`pages, table`g
    ensures table.g.rows == old(table.g.rows)
    ensures old(table.pages)[0].link in old(table.g).t
    ensures oldMax == MaxBelow(old(table.g).t, old(table.g).top, old(table.pages)[0].link) && m < oldMax
    ensures RootOver(table.caps, s1, table.g, o, n, oldMax) && table.g.t[o].ht > 0
    ensures DivisionDone(table.caps, s1, table.pages, table.g, g', o, n, m, Cut(table.caps, pos))
  {
    ghost var g0 := table.g;
    var childMax;
    RootLink(table.caps, table.pages, g0, x, pos);
    oldMax, childMax := Maxima(table, 0, x, pos);
    n := |table.pages|;
    table.PrepareRoot(n, x, oldMax, pos);
    s1 := table.pages;
    o := Table.InternalNodeChild(table.pages[0], 0);
    g', m := table.DivideTree(o, n, x, childMax, pos);
    RootKeyLowered(table.caps, g0, table.g, o, n, pos, m, oldMax);
  }

  lemma RootLink(c: Caps, s: seq<Page>, g: Model, x: nat, pos: nat)
    requires Pending(c, s, g, 0, x, pos) && |g.t[0].kids| == c.innerMax + 2
    ensures s[0].link == RemoveAt(g.t[0].kids, pos)[c.innerMax] && |s| !in g.t && |s| + 1 !in g.t
  {
    assert |Children(s[0])| == s[0].count + 1;
    assert Children(s[0])[s[0].count] == s[0].link;
  }

  // The key that divides the old root is less than the largest key before.
  lemma RootKeyLowered(c: Caps, g: Model, g1: Model, l: nat, n: nat, pos: nat, m: Key, oldMax: Key)
    requires TreeOk(g.t, g.top) && |g.t[0].kids| == c.innerMax + 2 && 0 < pos < |g.t[0].kids| && l !in g.t
    requires var link := RemoveAt(g.t[0].kids, pos)[c.innerMax]; link in g.t && oldMax == MaxBelow(g.t, g.top, link)
    requires g1.t == Grow(g.t, l) && g1.t[l].kids == g.t[0].kids && g1.t[l].ht > 0
    requires CanSplit(g1.t, g1.top, l, n, m, Cut(c, pos))
    ensures m < oldMax
  {
    var last, low := if pos <= c.innerMax then c.innerMax + 1 else c.innerMax, Cut(c, pos) - 1;
    MaximaAscend(g.t, g.top, 0, low, last);
    ListedByParent(g.t, g.top, 0, g.t[0].kids[low]);
    GrownMax(g.t, g.top, l, g.t[0].kids[low]);
  }

  lemma RootSpoilt(c: Caps, s1: seq<Page>, s: seq<Page>, s': seq<Page>, g: Model, g': Model, o: nat, n: nat,
                   oldMax: Key, m: Key, cut: nat, e: nat)
    requires RootOver(c, s1, g, o, n, oldMax) && DivisionDone(c, s1, s, g, g', o, n, m, cut) && m != oldMax && e != 0
    requires 0 < |s| && s' == s[0 := Bare.NumberWritten(s[0], e, m)]
    ensures forall g'' :: !TableOk(c, s', g'')
  {
    SplitParent(g, o, n, m, cut, 0);
    WrittenAlmost(c, s, s', g', 0, n);
    ListedByParent(g.t, g.top, 0, o);
    Bare.LastInTree(c, s', g', 0, n, o, m);
    assert s'[0].slots[0] == Slot(o, oldMax);
    Bare.WrongKeyNoTable(c, s', 0, Slot(o, oldMax), g'.t[o].ht, m);
  }

  method FinishByNumber(table: Table, o: nat, n: nat, oldMax: Key, ghost g': Model, ghost m: Key, ghost h: nat,
                        ghost cut: nat, ghost s1: seq<Page>) returns (outside: bool)
    requires RootOver(table.caps, s1, table.g, o, n, oldMax) && table.g.t[o].ht == h + 1 && m != oldMax
    requires DivisionDone(table.caps, s1, table.pages, table.g, g', o, n, m, cut)
    modifies table`pages, table`g
    ensures var number := L.SlotOfNumber(oldMax);
            ComesOut(table.caps, table.pages, table.g, old(table.g.rows), outside,
                     if number >= L.SLOTS_IN_PAGE then Outside else if number == 0 then Right else Wrong)
  {
    ghost var s := table.pages;
    RootSearchable(table.caps, s1, s, table.g, g', o, n, oldMax, m, cut);
    ghost var newMax, harmless, index;
    outside, harmless, index, newMax := WriteByNumber(table, 0, o, oldMax, h);
    if !outside {
      if L.SlotOfNumber(oldMax) == 0 {
        RootFinished(table.caps, s1, s, table.pages, table.g, g', o, n, oldMax, m, cut, 0);
        table.g := g';
      } else {
        RootSpoilt(table.caps, s1, s, table.pages, table.g, g', o, n, oldMax, m, cut, L.SlotOfNumber(oldMax));
      }
    }
  }

  // ------------------------------------------------------------------
  // The insertion of a row

  // The tree with the row's key among the keys.
  ghost function WithTop(g: Model, p: nat, x: Cell): (g': Model)
    requires TreeOk(g.t, g.top) && p in g.t
    ensures g' == g.(top := WithRow(g, p, x.key, x.row).top) && TreeOk(g'.t, g'.top)
  {
    TreeOkHigher(g.t, g.top, WithRow(g, p, x.key, x.row).top);
    g.(top := WithRow(g, p, x.key, x.row).top)
  }

  // What comes of the insertion of cell x at position `cell` of leaf p, told from the table before.
  ghost function InsertOutcome(c: Caps, s: seq<Page>, g: Model, p: nat, cell: nat, x: Cell): Outcome
    requires TreeOk(g.t, g.top) && p in g.t && p < |s| && |s[p].cells| == c.leafMax && cell <= c.leafMax
  {
    if s[p].count < c.leafMax || p == 0 then Right
    else
      var r := g.t[p].parent;
      assert NodeOk(g.t, g.top, p);
      var low := InsertAt(s[p].cells, cell, x)[c.LeftSplit() - 1].key;
      Verdict(WithTop(g, p, x), c.innerMax, r, IndexIn(g.t[r].kids, p), low)
  }

  lemma LeafFollows(c: Caps, s: seq<Page>, g: Model, g1: Model, p: nat, n: nat, cell: nat, x: Cell, m: Key, pos: nat)
    requires TreeOk(g.t, g.top) && LeafParted(c, s, g, g1, p, n, cell, x, m)
    requires g.t[p].parent in g1.t && pos < |g1.t[g.t[p].parent].kids| && g1.t[g.t[p].parent].kids[pos] == n
    ensures var r := g.t[p].parent;
            pos == IndexIn(g.t[r].kids, p) + 1 && Follows(WithTop(g, p, x), g1, r, IndexIn(g.t[r].kids, p), n, m)
  {
    var g', r := WithTop(g, p, x), g.t[p].parent;
    var i := IndexIn(g.t[r].kids, p);
    assert NodeOk(g.t, g.top, p);
    SplitParent(g', p, n, m, 0, i);
    ListedByParent(g.t, g.top, r, p);
    LeafFollowsAbove(g', g1, p, n, m);
    LeafNewPosition(g', g1, r, p, n, i, pos);
    forall k | 0 <= k < |g.t[r].kids|
      ensures g.t[r].kids[k] in g1.t
      ensures MaxBelow(g1.t, g1.top, g.t[r].kids[k]) == if k == i then m else KidMax(g', r, k)
    {
      KidInTree(g', r, k);
    }
  }

  lemma LeafFollowsAbove(g: Model, g1: Model, p: nat, n: nat, m: Key)
    requires p in g.t && g.t[p].kids == [] && g.t[p].parent in g.t && p in g.t[g.t[p].parent].kids
    requires g.t[g.t[p].parent].ht == 1 && g.t[p].ht == 0 && g1.t == Split(g.t, p, n, m, 0) && n !in g.t
    ensures forall q | q in g.t && g.t[q].ht > 1 :: q in g1.t && g1.t[q] == g.t[q]
    ensures forall q | q in g.t && g.t[q].ht == 1 ::
              q in g1.t && g1.t[q].hi == g.t[q].hi && g1.t[q].ht == g.t[q].ht
  {
  }

  // The new leaf stands right behind its left half.
  lemma LeafNewPosition(g: Model, g1: Model, r: nat, p: nat, n: nat, i: nat, pos: nat)
    requires TreeOk(g.t, g.top) && r in g.t && r in g1.t && n !in g.t && i < |g.t[r].kids|
    requires g1.t[r].kids == InsertAt(g.t[r].kids, i + 1, n) && pos < |g1.t[r].kids| && g1.t[r].kids[pos] == n
    ensures pos == i + 1
  {
    if pos != i + 1 {
      ListedByParent(g.t, g.top, r, g.t[r].kids[if pos <= i then pos else pos - 1]);
    }
  }

  lemma OutcomeIs(c: Caps, s: seq<Page>, g: Model, p: nat, cell: nat, x: Cell)
    requires CanInsert(c, s, g, p, cell, x.key)
    ensures p < |s| && |s[p].cells| == c.leafMax && cell <= c.leafMax
    ensures var v := InsertOutcome(c, s, g, p, cell, x);
            if s[p].count < c.leafMax || p == 0 then v == Right
            else
              var r := g.t[p].parent;
              && r in g.t && p in g.t[r].kids && (|g.t[r].kids| <= c.innerMax ==> v == Right)
              && v == Verdict(WithTop(g, p, x), c.innerMax, r, IndexIn(g.t[r].kids, p),
                              InsertAt(s[p].cells, cell, x)[c.LeftSplit() - 1].key)
  {
    assert PageOk(c, s, g, p) && NodeOk(g.t, g.top, p);
  }

  // ------------------------------------------------------------------
  // Single levels

  lemma OutsideHere(g: Model, innerMax: nat, r: nat, i: nat, low: Key)
    requires TreeOk(g.t, g.top) && r in g.t && i < |g.t[r].kids| && innerMax < |g.t[r].kids|
    requires L.SlotOfNumber(if i == innerMax then low else KidMax(g, r, innerMax)) >= L.SLOTS_IN_PAGE
    ensures Verdict(g, innerMax, r, i, low) == Outside
  {
  }

  // What comes of a split below a node q.
  lemma VerdictBelow(g: Model, innerMax: nat, r: nat, i: nat, low: Key, number: nat, q: nat, j: nat, low': Key)
    requires TreeOk(g.t, g.top) && r in g.t && r != 0 && i < |g.t[r].kids| && innerMax < |g.t[r].kids|
    requires number == L.SlotOfNumber(if i == innerMax then low else KidMax(g, r, innerMax))
    requires low' == if i == innerMax / 2 then low else KidMax(g, r, innerMax / 2)
    requires q == g.t[r].parent && q in g.t && r in g.t[q].kids && j == IndexIn(g.t[q].kids, r)
    ensures Verdict(g, innerMax, r, i, low) ==
            if number >= L.SLOTS_IN_PAGE then Outside
            else Combined(Harmless(LastingKeys(innerMax, |g.t[q].kids|), j, number), Verdict(g, innerMax, q, j, low'))
  {
  }

  // ------------------------------------------------------------------
  // The root

  // Node r and all nodes above are full.
  ghost predicate FullUp(g: Model, innerMax: nat, r: nat)
    requires TreeOk(g.t, g.top) && r in g.t
    decreases g.t[0].ht - g.t[r].ht
  {
    assert NodeOk(g.t, g.top, r);
    |g.t[r].kids| > innerMax &&
    (r == 0 ||
     (assert NodeOk(g.t, g.top, g.t[r].parent);
      ListedByParent(g.t, g.top, g.t[r].parent, r);
      FullUp(g, innerMax, g.t[r].parent)))
  }

  // A new root has the old one's left half in slot 0, and no key below 2^29 but 0 leads there.
  lemma {:induction false} RootNeverRight(g: Model, innerMax: nat, r: nat, i: nat, low: Key)
    requires TreeOk(g.t, g.top) && r in g.t && i < |g.t[r].kids| && FullUp(g, innerMax, r)
    requires 0 < low < 0x2000_0000
    requires forall q | q in g.t && q != 0 :: 0 < MaxBelow(g.t, g.top, q) < 0x2000_0000
    ensures !Verdict(g, innerMax, r, i, low).Right?
    decreases g.t[0].ht - g.t[r].ht
  {
    var q := g.t[r].parent;
    assert NodeOk(g.t, g.top, r);
    ListedByParent(g.t, g.top, r, g.t[r].kids[innerMax]);
    ListedByParent(g.t, g.top, r, g.t[r].kids[innerMax / 2]);
    if r != 0 {
      ListedByParent(g.t, g.top, q, r);
      assert NodeOk(g.t, g.top, q);
      RootNeverRight(g, innerMax, q, IndexIn(g.t[q].kids, r),
                     if i == innerMax / 2 then low else KidMax(g, r, innerMax / 2));
    }
  }

  lemma {:induction false} FullUpSame(g: Model, g': Model, innerMax: nat, r: nat)
    requires TreeOk(g.t, g.top) && TreeOk(g'.t, g'.top) && g'.t == g.t && r in g.t && FullUp(g, innerMax, r)
    ensures FullUp(g', innerMax, r)
    decreases g.t[0].ht - g.t[r].ht
  {
    assert NodeOk(g.t, g.top, r);
    if r != 0 {
      ListedByParent(g.t, g.top, g.t[r].parent, r);
      assert NodeOk(g.t, g.top, g.t[r].parent);
      FullUpSame(g, g', innerMax, g.t[r].parent);
    }
  }

  // So with keys below 2^29, no insertion that splits an internal root comes out right.
  lemma InsertNeverRight(c: Caps, s: seq<Page>, g: Model, p: nat, cell: nat, x: Cell)
    requires CanInsert(c, s, g, p, cell, x.key) && s[p].count == c.leafMax && p != 0 && 3 <= c.leafMax
    requires g.t[p].parent in g.t && FullUp(g, c.innerMax, g.t[p].parent)
    requires x.key < 0x2000_0000 && forall q | q in g.t :: MaxBelow(g.t, g.top, q) < 0x2000_0000
    ensures |s[p].cells| == c.leafMax && cell <= c.leafMax && !InsertOutcome(c, s, g, p, cell, x).Right?
  {
    var g', r := WithTop(g, p, x), g.t[p].parent;
    OutcomeIs(c, s, g, p, cell, x);
    FullUpSame(g, g', c.innerMax, r);
    forall q | q in g'.t && q != 0 ensures 0 < MaxBelow(g'.t, g'.top, q) < 0x2000_0000 {
      MaximumAtLeast(c, s, g, q);
    }
    LowBetween(c, s, g, p, cell, x);
    RootNeverRight(g', c.innerMax, r, IndexIn(g.t[r].kids, p), InsertAt(s[p].cells, cell, x)[c.LeftSplit() - 1].key);
  }

  // The largest key of the left half of the leaf.
  lemma LowBetween(c: Caps, s: seq<Page>, g: Model, p: nat, cell: nat, x: Cell)
    requires CanInsert(c, s, g, p, cell, x.key) && s[p].count == c.leafMax && p != 0 && 3 <= c.leafMax
    requires MaxBelow(g.t, WithRow(g, p, x.key, x.row).top, p) < 0x2000_0000
    ensures |s[p].cells| == c.leafMax && cell <= c.leafMax
    ensures 0 < InsertAt(s[p].cells, cell, x)[c.LeftSplit() - 1].key < 0x2000_0000
  {
    assert PageOk(c, s, g, p);
    LongerLeaf(c, s[p], g, p, cell, x);
    var all := InsertAt(s[p].cells, cell, x);
    assert all[0].key < all[c.LeftSplit() - 1].key < all[c.leafMax].key;
  }

  // For a full leaf and a key that is not the largest.
  lemma OutcomeBelow(c: Caps, s: seq<Page>, g: Model, p: nat, cell: nat, x: Cell, r: nat, i: nat, low: Key)
    requires TreeOk(g.t, g.top) && p in g.t && p < |s| && |s[p].cells| == c.leafMax == s[p].count && cell <= c.leafMax
    requires p != 0 && x.key <= g.top && r == g.t[p].parent && r in g.t && p in g.t[r].kids
    requires i == IndexIn(g.t[r].kids, p) && low == InsertAt(s[p].cells, cell, x)[c.LeftSplit() - 1].key
    ensures InsertOutcome(c, s, g, p, cell, x) == Verdict(g, c.innerMax, r, i, low)
  {
    assert WithTop(g, p, x) == g;
  }

  // The insertion of a row, with line 234 as written. What comes of it is told from the table before: the table is
  // valid with the new row exactly if the outcome is Right.
  method LeafNodeInsertByNumber(table: Table, cursor: Cursor, key: Key, row: Row) returns (outside: bool)
    requires CanInsert(table.caps, table.pages, table.g, cursor.pageNum, cursor.cellNum, key)
    requires |table.pages| + PagesToInsert(table.caps, table.pages, table.g, cursor.pageNum) <= FILE_PAGES_NUM
    modifies table`pages, table`g
    ensures var p, cell, s := cursor.pageNum, cursor.cellNum, old(table.pages);
            && |s[p].cells| == table.caps.leafMax && cell <= table.caps.leafMax
            && ComesOut(table.caps, table.pages, table.g, old(table.g.rows)[key := row], outside,
                        InsertOutcome(table.caps, s, old(table.g), p, cell, Cell(key, row)))
  {
    var p := cursor.pageNum;
    LeafParent(table.caps, table.pages, table.g, p);
    OutcomeIs(table.caps, table.pages, table.g, p, cursor.cellNum, Cell(key, row));
    var r := table.pages[p].parent;
    if table.pages[p].count < table.caps.leafMax || table.pages[p].isRoot
       || table.pages[r].count < table.caps.innerMax {
      table.LeafNodeInsert(cursor, key, row);
      outside := false;
    } else {
      outside := SplitLeafByNumber(table, cursor, key, row, r);
    }
  }

  // The leaf and its parent are full.
  method SplitLeafByNumber(table: Table, cursor: Cursor, key: Key, row: Row, r: nat) returns (outside: bool)
    requires CanInsert(table.caps, table.pages, table.g, cursor.pageNum, cursor.cellNum, key)
    requires table.pages[cursor.pageNum].count == table.caps.leafMax && cursor.pageNum != 0
    requires |table.pages| + PagesToInsert(table.caps, table.pages, table.g, cursor.pageNum) <= FILE_PAGES_NUM
    requires r == table.g.t[cursor.pageNum].parent && r in table.g.t && |table.g.t[r].kids| == table.caps.innerMax + 1
    modifies table`pages, table`g
    ensures var p, cell, s := cursor.pageNum, cursor.cellNum, old(table.pages);
            && |s[p].cells| == table.caps.leafMax && cell <= table.caps.leafMax
            && ComesOut(table.caps, table.pages, table.g, old(table.g.rows)[key := row], outside,
                        InsertOutcome(table.caps, s, old(table.g), p, cell, Cell(key, row)))
  {
    ghost var s0, g0, p, cell, x := table.pages, table.g, cursor.pageNum, cursor.cellNum, Cell(key, row);
    var n;
    ghost var i, m;
    n, i, m := DivideLeafReady(table, cursor, key, row, r);
    LeafOutcome(table.caps, s0, g0, table.g, p, n, cell, x, m, i);
    outside := SplitByNumber(table, r, n, WithTop(g0, p, x), i, m);
  }

  lemma LeafOutcome(c: Caps, s: seq<Page>, g: Model, g1: Model, p: nat, n: nat, cell: nat, x: Cell, m: Key, i: nat)
    requires CanInsert(c, s, g, p, cell, x.key) && s[p].count == c.leafMax && p != 0
    requires LeafParted(c, s, g, g1, p, n, cell, x, m) && g.t[p].parent in g1.t
    requires i + 1 < |g1.t[g.t[p].parent].kids| && g1.t[g.t[p].parent].kids[i + 1] == n
    ensures Follows(WithTop(g, p, x), g1, g.t[p].parent, i, n, m)
    ensures InsertOutcome(c, s, g, p, cell, x) == Verdict(WithTop(g, p, x), c.innerMax, g.t[p].parent, i, m)
  {
    OutcomeIs(c, s, g, p, cell, x);
    LeafFollows(c, s, g, g1, p, n, cell, x, m, i + 1);
  }

  // leaf_node_split_and_insert up to the insertion into the full parent.
  method DivideLeafReady(table: Table, cursor: Cursor, key: Key, row: Row, r: nat)
    returns (n: nat, ghost i: nat, ghost m: Key)
    requires CanInsert(table.caps, table.pages, table.g, cursor.pageNum, cursor.cellNum, key)
    requires table.pages[cursor.pageNum].count == table.caps.leafMax && cursor.pageNum != 0
    requires |table.pages| + PagesToInsert(table.caps, table.pages, table.g, cursor.pageNum) <= FILE_PAGES_NUM
    requires r == table.g.t[cursor.pageNum].parent && r in table.g.t && |table.g.t[r].kids| == table.caps.innerMax + 1
    modifies table`pages, table`g
    ensures Pending(table.caps, table.pages, table.g, r, n, i + 1) && |table.g.t[r].kids| == table.caps.innerMax + 2
    ensures |table.pages| + PagesToSettle(table.g, table.caps.innerMax, r) <= FILE_PAGES_NUM
    ensures table.g.rows == old(table.g.rows)[key := row]
    ensures LeafParted(table.caps, old(table.pages), old(table.g), table.g, cursor.pageNum, n, cursor.cellNum,
                       Cell(key, row), m)
  {
    ghost var pos;
    n, pos, m := PendingLeaf(table, cursor, key, row, r);
    i := pos - 1;
  }
}
