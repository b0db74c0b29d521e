/**
 The insertion of a child into an internal node and the splits above it, carried out on pages that need not be in order:
 only the heights of the pages are known. So it goes on where separators are wrong already, and with lines as written
 that make them so.
 */
module BareTree {

  import L = Layout
  import opened Sequences
  import opened BTreeShape
  import opened BTreePages
  import opened BTreeRaising
  import opened BTreeRoom
  import opened BTreeTable

  // The source with one of its lines as written: lines 155-162, which take the last separator of an internal node for
  // its largest key, or line 234, which takes a key for the number of a slot. Modelled is without both.
  datatype Variant = Modelled | LastSeparator | NumberAsSlot

  type Heights = map<nat, nat>

  // ------------------------------------------------------------------
  // What is known of the pages

  ghost predicate At(ht: Heights, h: int, q: nat) {
    q in ht && ht[q] == h
  }

  // All children of the page have height h.
  ghost predicate Kids(page: Page, ht: Heights, h: int) {
    && page.count <= |page.slots| && At(ht, h, page.link)
    && forall j | 0 <= j < page.count :: At(ht, h, page.slots[j].child)
  }

  ghost predicate BareAt(c: Caps, s: seq<Page>, ht: Heights, q: nat) {
    && q in ht && q < |s| && Sized(c, s[q]) && (s[q].isRoot <==> q == 0)
    && if ht[q] == 0 then s[q].nodeType == LEAF && HasKeys(s[q])
       else s[q].nodeType == INTERNAL && 0 < s[q].count <= c.innerMax && Kids(s[q], ht, ht[q] - 1)
  }

  // Up to height h.
  ghost predicate Bodies(c: Caps, s: seq<Page>, ht: Heights, h: int) {
    forall q {:trigger BareAt(c, s, ht, q)} | q in ht && ht[q] <= h :: BareAt(c, s, ht, q)
  }

  ghost predicate ParentAt(s: seq<Page>, ht: Heights, q: nat) {
    q in ht && q < |s| && (q != 0 ==> At(ht, ht[q] + 1, s[q].parent))
  }

  // Every page lists pages of the height below, and names one of the height above as its parent; page 0 alone is the
  // highest.
  ghost predicate Bare(c: Caps, s: seq<Page>, ht: Heights) {
    && |s| <= FILE_PAGES_NUM && ht.Keys == PageNumbers(|s|) && 0 in ht
    && (forall q | q in ht :: ht[q] <= ht[0] && (ht[q] == ht[0] ==> q == 0))
    && Bodies(c, s, ht, ht[0])
    && forall q {:trigger ParentAt(s, ht, q)} | q in ht :: ParentAt(s, ht, q)
  }

  // The page has a key, as every page but an empty root has.
  ghost predicate HasKeys(page: Page) {
    0 < page.count <= if page.nodeType == LEAF then |page.cells| else |page.slots|
  }

  // The largest key of the page as lines 155-162 take it.
  function LastKey(page: Page): Key
    requires HasKeys(page)
  {
    if page.nodeType == LEAF then page.cells[page.count - 1].key else page.slots[page.count - 1].key
  }

  // Following `depth` right children from page q leads to a leaf whose last key this is.
  ghost predicate LastBelow(s: seq<Page>, q: nat, depth: nat, key: Key)
    decreases depth
  {
    && q < |s|
    && if depth == 0 then s[q].nodeType == LEAF && HasKeys(s[q]) && LastKey(s[q]) == key
       else s[q].nodeType == INTERNAL && LastBelow(s, s[q].link, depth - 1, key)
  }

  // Page p has an internal page in a slot with that page's own last separator.
  ghost predicate Misnamed(s: seq<Page>, p: nat, j: nat) {
    && p < |s| && s[p].nodeType == INTERNAL && j < s[p].count <= |s[p].slots|
    && var q := s[p].slots[j].child;
       && q < |s| && q != p && s[q].nodeType == INTERNAL && HasKeys(s[q]) && s[p].slots[j].key == LastKey(s[q])
  }

  ghost predicate SomeMisnamed(s: seq<Page>, p: nat) {
    exists j: nat :: Misnamed(s, p, j)
  }

  // ------------------------------------------------------------------
  // What stays

  ghost predicate Holds(page: Page, x: Slot) {
    exists k: nat :: k < page.count <= |page.slots| && page.slots[k] == x
  }

  // The first n slots are still there, maybe at other places.
  ghost predicate KeepsSlots(was: Page, page: Page, n: nat) {
    n <= |was.slots| && forall i {:trigger was.slots[i]} | 0 <= i < n :: Holds(page, was.slots[i])
  }

  // The pages of nodes below height h are as before, apart from their parents.
  ghost predicate SameBelow(s: seq<Page>, s': seq<Page>, ht: Heights, h: int) {
    forall q {:trigger SameBody(s, s', q)} | q in ht && ht[q] < h :: SameBody(s, s', q)
  }

  lemma SameBelowTwice(s0: seq<Page>, s1: seq<Page>, s2: seq<Page>, ht: Heights,
                       ht': Heights, h: int, h': int)
    requires SameBelow(s0, s1, ht, h) && SameBelow(s1, s2, ht', h') && h <= h'
    requires forall q | q in ht && ht[q] < h :: q in ht' && ht'[q] == ht[q]
    ensures SameBelow(s0, s2, ht, h)
  {
    forall q {:trigger SameBody(s0, s2, q)} | q in ht && ht[q] < h ensures SameBody(s0, s2, q) {
      assert SameBody(s0, s1, q) && SameBody(s1, s2, q);
    }
  }

  // ------------------------------------------------------------------
  // The largest key

  method MaxKey(table: Table, q: nat, variant: Variant, ghost ht: Heights) returns (k: Key)
    requires q < |table.pages| && HasKeys(table.pages[q])
    requires var page := table.pages[q];
             page.nodeType == INTERNAL ==>
               page.link in ht && Bodies(table.caps, table.pages, ht, ht[page.link])
    ensures variant.LastSeparator? || table.pages[q].nodeType == LEAF ==> k == LastKey(table.pages[q])
    ensures !variant.LastSeparator? && table.pages[q].nodeType == INTERNAL ==>
              LastBelow(table.pages, table.pages[q].link, ht[table.pages[q].link], k)
    decreases if table.pages[q].nodeType == LEAF then 0 else ht[table.pages[q].link] + 1
  {
    var node := table.pages[q];
    if node.nodeType == LEAF {
      return node.cells[node.count - 1].key;
    }
    if variant.LastSeparator? {
      return node.slots[node.count - 1].key;
    }
    assert BareAt(table.caps, table.pages, ht, node.link);
    k := MaxKey(table, node.link, variant, ht);
  }

  // ------------------------------------------------------------------
  // internal_node_insert with room

  ghost predicate CanTake(c: Caps, s: seq<Page>, ht: Heights, h: nat, p: nat, child: nat) {
    && p < |s| <= FILE_PAGES_NUM && Sized(c, s[p]) && s[p].nodeType == INTERNAL && s[p].count < c.innerMax
    && (p in ht ==> ht[p] > h) && At(ht, h, child) && Bodies(c, s, ht, h)
    && if s[p].link == INVALID_PAGE_NUM then s[p].count == 0 else Kids(s[p], ht, h)
  }

  ghost predicate Taken(c: Caps, was: Page, page: Page, ht: Heights, h: nat) {
    && Sized(c, page) && page == was.(count := page.count, link := page.link, slots := page.slots)
    && page.count == (if was.link == INVALID_PAGE_NUM then was.count else was.count + 1)
    && Kids(page, ht, h) && was.count <= |was.slots| && KeepsSlots(was, page, was.count)
  }

  method Place(table: Table, p: nat, child: nat, variant: Variant, ghost ht: Heights, ghost h: nat)
    requires CanTake(table.caps, table.pages, ht, h, p, child)
    modifies table`pages
    ensures |table.pages| == |old(table.pages)| && table.pages == old(table.pages)[p := table.pages[p]]
    ensures Taken(table.caps, old(table.pages)[p], table.pages[p], ht, h)
    ensures variant.LastSeparator? && h > 0 && old(table.pages)[p].link != INVALID_PAGE_NUM ==>
              SomeMisnamed(table.pages, p)
    ensures !variant.LastSeparator? ==> KeepsLink(old(table.pages), p, table.pages[p], child, h)
  {
    ghost var s := table.pages;
    TakesPages(table.caps, s, ht, h, p, child);
    var childMax := ChildMax(table, child, variant, ht, h);
    var index := Table.InternalNodeFindChild(table.pages[p], childMax);
    var right := table.pages[p].link;
    if right == INVALID_PAGE_NUM {
      table.pages := table.pages[p := table.pages[p].(link := child)];
      return;
    }
    var rightMax := ChildMax(table, right, variant, ht, h);
    table.PlaceBeside(p, child, childMax, index, rightMax);
    PlacedBeside(table.caps, s, table.pages, ht, h, p, child, variant, childMax, rightMax, index);
  }

  // The key that counts as the largest one below page q.
  ghost predicate CountsAsMax(s: seq<Page>, q: nat, h: nat, variant: Variant, key: Key) {
    && q < |s| && HasKeys(s[q]) && (h > 0 ==> s[q].nodeType == INTERNAL)
    && if variant.LastSeparator? then key == LastKey(s[q]) else LastBelow(s, q, h, key)
  }

  method ChildMax(table: Table, q: nat, variant: Variant, ghost ht: Heights, ghost h: nat) returns (k: Key)
    requires At(ht, h, q) && Bodies(table.caps, table.pages, ht, h)
    ensures CountsAsMax(table.pages, q, h, variant, k)
  {
    assert BareAt(table.caps, table.pages, ht, q);
    k := MaxKey(table, q, variant, ht);
  }

  lemma PlacedBeside(c: Caps, s: seq<Page>, s': seq<Page>, ht: Heights, h: nat, p: nat, child: nat, variant: Variant,
                     childMax: Key, rightMax: Key, index: nat)
    requires CanTake(c, s, ht, h, p, child) && s[p].link != INVALID_PAGE_NUM
    requires |s'| == |s| && s' == s[p := s'[p]] && Sized(c, s'[p])
    requires PlacedAt(s[p], s'[p], child, childMax, rightMax, index)
    requires CountsAsMax(s, child, h, variant, childMax) && CountsAsMax(s, s[p].link, h, variant, rightMax)
    ensures Taken(c, s[p], s'[p], ht, h)
    ensures variant.LastSeparator? && h > 0 ==> SomeMisnamed(s', p)
    ensures !variant.LastSeparator? ==> KeepsLink(s, p, s'[p], child, h)
  {
    TakesPages(c, s, ht, h, p, child);
    PlacedTaken(c, s[p], s'[p], ht, h, child, childMax, rightMax, index);
    if !variant.LastSeparator? {
      LinkKept(s, p, s'[p], child, h, childMax, rightMax);
    } else if h > 0 {
      PlacedMisnamed(s, s', p, child, childMax, rightMax, index);
    }
  }

  // A child with a smaller largest key than the right child does not go last.
  ghost predicate KeepsLink(s: seq<Page>, p: nat, page: Page, child: nat, h: nat)
    requires p < |s|
  {
    forall a, b {:trigger LastBelow(s, child, h, a), LastBelow(s, s[p].link, h, b)} ::
      LastBelow(s, child, h, a) && LastBelow(s, s[p].link, h, b) && a < b ==> page.link == s[p].link
  }

  lemma {:induction false} LastUnique(s: seq<Page>, q: nat, depth: nat, a: Key, b: Key)
    requires LastBelow(s, q, depth, a) && LastBelow(s, q, depth, b)
    ensures a == b
    decreases depth
  {
    if depth > 0 {
      LastUnique(s, s[q].link, depth - 1, a, b);
    }
  }

  lemma LinkKept(s: seq<Page>, p: nat, page: Page, child: nat, h: nat, childMax: Key, rightMax: Key)
    requires p < |s| && LastBelow(s, child, h, childMax) && LastBelow(s, s[p].link, h, rightMax)
    requires childMax <= rightMax ==> page.link == s[p].link
    ensures KeepsLink(s, p, page, child, h)
  {
    forall a, b {:trigger LastBelow(s, child, h, a), LastBelow(s, s[p].link, h, b)} |
      LastBelow(s, child, h, a) && LastBelow(s, s[p].link, h, b) && a < b
      ensures page.link == s[p].link
    {
      LastUnique(s, child, h, a, childMax);
      LastUnique(s, s[p].link, h, b, rightMax);
    }
  }

  lemma TakesPages(c: Caps, s: seq<Page>, ht: Heights, h: nat, p: nat, child: nat)
    requires CanTake(c, s, ht, h, p, child)
    ensures BareAt(c, s, ht, child) && child < |s| < INVALID_PAGE_NUM && HasKeys(s[child]) && child != p
    ensures s[p].link != INVALID_PAGE_NUM ==>
              BareAt(c, s, ht, s[p].link) && s[p].link < |s| && HasKeys(s[s[p].link]) && s[p].link != p
    ensures forall q | q in ht && ht[q] < h :: BareAt(c, s, ht, q)
    ensures Bodies(c, s, ht, h - 1)
  {
  }

  lemma PlacedTaken(c: Caps, was: Page, page: Page, ht: Heights, h: nat, child: nat,
                    childMax: Key, rightMax: Key, index: nat)
    requires Sized(c, was) && Sized(c, page) && was.count < |was.slots| && Kids(was, ht, h) && At(ht, h, child)
    requires was.link != INVALID_PAGE_NUM && PlacedAt(was, page, child, childMax, rightMax, index)
    ensures Taken(c, was, page, ht, h)
  {
    forall i {:trigger was.slots[i]} | 0 <= i < was.count ensures Holds(page, was.slots[i]) {
      var k := if childMax > rightMax || i < index then i else i + 1;
      assert page.slots[k] == was.slots[i];
    }
    forall j | 0 <= j < page.count ensures At(ht, h, page.slots[j].child) {
      if childMax <= rightMax && j > index {
        assert page.slots[j] == was.slots[j - 1];
      }
    }
  }

  // One of two internal pages side by side has got its own last separator.
  lemma PlacedMisnamed(s: seq<Page>, s': seq<Page>, p: nat, child: nat, childMax: Key,
                       rightMax: Key, index: nat)
    requires p < |s| && s[p].nodeType == INTERNAL && s[p].count < |s[p].slots|
    requires |s'| == |s| && s' == s[p := s'[p]]
    requires PlacedAt(s[p], s'[p], child, childMax, rightMax, index)
    requires child < |s| && child != p && s[child].nodeType == INTERNAL
    requires HasKeys(s[child]) && childMax == LastKey(s[child])
    requires s[p].link < |s| && s[p].link != p && s[s[p].link].nodeType == INTERNAL
    requires HasKeys(s[s[p].link]) && rightMax == LastKey(s[s[p].link])
    ensures SomeMisnamed(s', p)
  {
    assert Misnamed(s', p, if childMax > rightMax then s[p].count else index);
  }

  // ------------------------------------------------------------------
  // Lines 202 to 232

  // Page o is full, page n empty.
  ghost predicate CanDivide(c: Caps, s: seq<Page>, ht: Heights, h: nat, o: nat, n: nat, child: nat) {
    && o < |s| <= FILE_PAGES_NUM && n < |s| && o != n
    && (o in ht ==> ht[o] > h) && (n in ht ==> ht[n] > h) && At(ht, h, child) && Bodies(c, s, ht, h)
    && Sized(c, s[o]) && s[o].nodeType == INTERNAL && s[o].count == c.innerMax && Kids(s[o], ht, h)
    && Sized(c, s[n]) && s[n].nodeType == INTERNAL && s[n].count == 0 && s[n].link == INVALID_PAGE_NUM
  }

  // Only pages of height h have another parent: o or n.
  ghost predicate Reparented(s: seq<Page>, s': seq<Page>, ht: Heights, h: nat, o: nat, n: nat) {
    && |s'| == |s|
    && (forall q {:trigger SameBody(s, s', q)} | 0 <= q < |s| && q != o && q != n :: SameBody(s, s', q))
    && forall q {:trigger s'[q]} | 0 <= q < |s| && q != o && q != n ::
         s'[q].parent == s[q].parent || (At(ht, h, q) && (s'[q].parent == o || s'[q].parent == n))
  }

  // Page o has `count` slots less the last ones and no right child, page n has got some.
  ghost predicate Moved(c: Caps, s0: seq<Page>, s: seq<Page>, ht: Heights, h: nat, o: nat, n: nat, i: nat) {
    && o < |s0| && n < |s0| && Reparented(s0, s, ht, h, o, n) && i < c.innerMax
    && s[o] == s0[o].(count := i + 1, link := INVALID_PAGE_NUM)
    && Filled(c, s0[n], s[n], ht, h, c.innerMax - 1 - i)
  }

  ghost predicate Filled(c: Caps, was: Page, page: Page, ht: Heights, h: nat, count: nat) {
    && Sized(c, page) && page == was.(count := count, link := page.link, slots := page.slots)
    && Kids(page, ht, h)
  }

  ghost predicate Divided(c: Caps, s0: seq<Page>, s: seq<Page>, ht: Heights, h: nat, o: nat, n: nat) {
    && o < |s0| && n < |s0| && Reparented(s0, s, ht, h, o, n)
    && Filled(c, s0[o], s[o], ht, h, s[o].count) && 0 < s[o].count <= c.innerMax
    && Filled(c, s0[n], s[n], ht, h, s[n].count) && 0 < s[n].count <= c.innerMax
    && KeepsSlots(s0[o], s[o], c.innerMax / 2)
  }

  lemma ReparentedStep(s0: seq<Page>, s: seq<Page>, s': seq<Page>, ht: Heights, h: nat, o: nat, n: nat)
    requires Reparented(s0, s, ht, h, o, n) && Steps(s, s', ht, h, o, n)
    ensures Reparented(s0, s', ht, h, o, n)
  {
    forall q {:trigger SameBody(s0, s', q)} | 0 <= q < |s| && q != o && q != n ensures SameBody(s0, s', q) {
      assert SameBody(s0, s, q) && SameBody(s, s', q);
    }
    forall q {:trigger s'[q]} | 0 <= q < |s| && q != o && q != n
      ensures s'[q].parent == s0[q].parent || (At(ht, h, q) && (s'[q].parent == o || s'[q].parent == n))
    {
      assert s'[q].parent == s[q].parent || At(ht, h, q);
    }
  }

  // Some pages get another parent.
  ghost predicate Steps(s: seq<Page>, s': seq<Page>, ht: Heights, h: nat, o: nat, n: nat) {
    && |s'| == |s|
    && forall q {:trigger s'[q]} {:trigger SameBody(s, s', q)} | 0 <= q < |s| && q != o && q != n ::
         s'[q] == s[q] || (At(ht, h, q) && (s'[q] == s[q].(parent := o) || s'[q] == s[q].(parent := n)))
  }

  // Pages of height up to h may get other parents.
  lemma BodiesStay(c: Caps, s: seq<Page>, s': seq<Page>, ht: Heights, h: nat, o: nat, n: nat)
    requires Bodies(c, s, ht, h) && |s'| == |s| && (o in ht ==> ht[o] > h) && (n in ht ==> ht[n] > h)
    requires forall q {:trigger SameBody(s, s', q)} | 0 <= q < |s| && q != o && q != n :: SameBody(s, s', q)
    ensures Bodies(c, s', ht, h)
  {
    forall q {:trigger BareAt(c, s', ht, q)} | q in ht && ht[q] <= h ensures BareAt(c, s', ht, q) {
      assert BareAt(c, s, ht, q);
      assert SameBody(s, s', q);
    }
  }

  method Divide(table: Table, o: nat, n: nat, child: nat, variant: Variant, ghost ht: Heights, ghost h: nat)
    requires CanDivide(table.caps, table.pages, ht, h, o, n, child)
    modifies table`pages
    ensures Divided(table.caps, old(table.pages), table.pages, ht, h, o, n)
    ensures !variant.LastSeparator? ==>
              table.pages[o].link == old(table.pages)[o].slots[table.caps.innerMax / 2].child
  {
    ghost var s0 := table.pages;
    MoveRight(table, o, n, child, variant, ht, h);
    for i := table.caps.innerMax downto table.caps.innerMax / 2 + 1
      invariant Moved(table.caps, s0, table.pages, ht, h, o, n, i - 1)
    {
      Move(table, o, n, child, i, variant, ht, h, s0);
    }
    CloseAndPlace(table, o, n, child, variant, ht, h, s0);
  }

  method MoveRight(table: Table, o: nat, n: nat, ghost child: nat, variant: Variant, ghost ht: Heights, ghost h: nat)
    requires CanDivide(table.caps, table.pages, ht, h, o, n, child)
    modifies table`pages
    ensures Moved(table.caps, old(table.pages), table.pages, ht, h, o, n, table.caps.innerMax - 1)
  {
    var cur := table.pages[o].link;
    assert BareAt(table.caps, table.pages, ht, cur);
    Place(table, n, cur, variant, ht, h);
    table.pages := table.pages[cur := table.pages[cur].(parent := n)];
    table.pages := table.pages[o := table.pages[o].(link := INVALID_PAGE_NUM)];
  }

  method Move(table: Table, o: nat, n: nat, ghost child: nat, i: nat, variant: Variant, ghost ht: Heights, ghost h: nat,
              ghost s0: seq<Page>)
    requires CanDivide(table.caps, s0, ht, h, o, n, child)
    requires 0 < i < table.caps.innerMax && Moved(table.caps, s0, table.pages, ht, h, o, n, i)
    modifies table`pages
    ensures Moved(table.caps, s0, table.pages, ht, h, o, n, i - 1)
  {
    ghost var s := table.pages;
    var cur := table.pages[o].slots[i].child;
    MovedTakes(table.caps, s0, s, ht, h, o, n, child, i, cur);
    Place(table, n, cur, variant, ht, h);
    table.pages := table.pages[cur := table.pages[cur].(parent := n)];
    table.pages := table.pages[o := table.pages[o].(count := table.pages[o].count - 1)];
    ReparentedStep(s0, s, table.pages, ht, h, o, n);
  }

  lemma MovedTakes(c: Caps, s0: seq<Page>, s: seq<Page>, ht: Heights, h: nat, o: nat, n: nat, child: nat, i: nat,
                   cur: nat)
    requires CanDivide(c, s0, ht, h, o, n, child) && Moved(c, s0, s, ht, h, o, n, i) && At(ht, h, cur)
    ensures CanTake(c, s, ht, h, n, cur) && cur != o && cur != n && cur < |s| && s[n].link != INVALID_PAGE_NUM
    ensures Bodies(c, s, ht, h)
  {
    BodiesStay(c, s0, s, ht, h, o, n);
    assert BareAt(c, s, ht, cur) && BareAt(c, s, ht, s[n].link);
  }

  // Lines 224 to 232.
  method CloseAndPlace(table: Table, o: nat, n: nat, child: nat, variant: Variant, ghost ht: Heights, ghost h: nat,
                       ghost s0: seq<Page>)
    requires CanDivide(table.caps, s0, ht, h, o, n, child)
    requires Moved(table.caps, s0, table.pages, ht, h, o, n, table.caps.innerMax / 2)
    modifies table`pages
    ensures Divided(table.caps, s0, table.pages, ht, h, o, n)
    ensures !variant.LastSeparator? ==> table.pages[o].link == s0[o].slots[table.caps.innerMax / 2].child
  {
    ghost var s := table.pages;
    table.CloseLowerHalf(o);
    ghost var s1 := table.pages;
    ClosedTakes(table.caps, s0, s, s1, ht, h, o, n, child);
    var childMax := ChildMax(table, child, variant, ht, h);
    var maxAfterSplit := MaxKey(table, o, variant, ht);
    var dest := if childMax < maxAfterSplit then o else n;
    Place(table, dest, child, variant, ht, h);
    ghost var s2 := table.pages;
    table.pages := table.pages[child := table.pages[child].(parent := dest)];
    PlacedDivides(table.caps, s0, s1, s2, table.pages, ht, h, o, n, child, dest);
    if !variant.LastSeparator? && dest == o {
      assert LastBelow(s1, child, h, childMax) && LastBelow(s1, s1[o].link, h, maxAfterSplit);
    }
  }

  // Both halves before the child comes to one of them.
  ghost predicate Closed(c: Caps, s0: seq<Page>, s: seq<Page>, ht: Heights, h: nat, o: nat, n: nat) {
    && o < |s0| && n < |s0| && Reparented(s0, s, ht, h, o, n) && c.innerMax / 2 < |s0[o].slots|
    && s[o] == s0[o].(count := c.innerMax / 2, link := s0[o].slots[c.innerMax / 2].child) && Kids(s[o], ht, h)
    && Filled(c, s0[n], s[n], ht, h, c.innerMax - 1 - c.innerMax / 2)
  }

  lemma ClosedTakes(c: Caps, s0: seq<Page>, s: seq<Page>, s1: seq<Page>, ht: Heights, h: nat, o: nat, n: nat,
                    child: nat)
    requires CanDivide(c, s0, ht, h, o, n, child) && Moved(c, s0, s, ht, h, o, n, c.innerMax / 2)
    requires s1 == s[o := s[o].(count := c.innerMax / 2, link := s[o].slots[c.innerMax / 2].child)]
    ensures Closed(c, s0, s1, ht, h, o, n)
    ensures CanTake(c, s1, ht, h, o, child) && CanTake(c, s1, ht, h, n, child)
    ensures BareAt(c, s1, ht, child) && HasKeys(s1[o]) && HasKeys(s1[n]) && Bodies(c, s1, ht, ht[s1[o].link])
    ensures s1[o].link != INVALID_PAGE_NUM && s1[n].link != INVALID_PAGE_NUM && Bodies(c, s, ht, h)
  {
    BodiesStay(c, s0, s, ht, h, o, n);
    ReparentedStep(s0, s, s1, ht, h, o, n);
    BodiesStay(c, s0, s1, ht, h, o, n);
    assert BareAt(c, s1, ht, s1[o].link) && BareAt(c, s1, ht, s1[n].link);
  }

  lemma PlacedDivides(c: Caps, s0: seq<Page>, s1: seq<Page>, s2: seq<Page>, s: seq<Page>, ht: Heights, h: nat,
                      o: nat, n: nat, child: nat, dest: nat)
    requires CanDivide(c, s0, ht, h, o, n, child) && Closed(c, s0, s1, ht, h, o, n)
    requires s1[n].link != INVALID_PAGE_NUM && s1[o].link != INVALID_PAGE_NUM && BareAt(c, s1, ht, child)
    requires (dest == o || dest == n) && |s2| == |s1| && s2 == s1[dest := s2[dest]]
    requires Taken(c, s1[dest], s2[dest], ht, h) && s == s2[child := s2[child].(parent := dest)]
    ensures Divided(c, s0, s, ht, h, o, n)
  {
    ReparentedStep(s0, s1, s, ht, h, o, n);
    forall i {:trigger s0[o].slots[i]} | 0 <= i < c.innerMax / 2 ensures Holds(s[o], s0[o].slots[i]) {
      assert s1[o].slots[i] == s0[o].slots[i];
      if dest != o {
        assert s[o].slots[i] == s0[o].slots[i];
      }
    }
  }

  // ------------------------------------------------------------------
  // Line 234

  // The page with the key in the slot of that number, if it has that many.
  function NumberWritten(page: Page, number: nat, key: Key): Page {
    if number < |page.slots| then page.(slots := page.slots[number := page.slots[number].(key := key)]) else page
  }

  // In another variant than NumberAsSlot the number is found by a search for the old largest key.
  method WriteSeparator(table: Table, r: nat, o: nat, oldMax: Key, variant: Variant, ghost ht: Heights)
    returns (outside: bool, ghost number: nat, ghost newMax: Key)
    requires r < |table.pages| && r != o && Sized(table.caps, table.pages[r])
    requires table.pages[r].count <= table.caps.innerMax
    requires o < |table.pages| && HasKeys(table.pages[o]) && table.pages[o].nodeType == INTERNAL
    requires table.pages[o].link in ht && Bodies(table.caps, table.pages, ht, ht[table.pages[o].link])
    modifies table`pages
    ensures outside ==> table.pages == old(table.pages)
    ensures outside <==> variant.NumberAsSlot? && L.SlotOfNumber(oldMax) >= L.SLOTS_IN_PAGE
    ensures !outside ==> table.pages == old(table.pages)[r := NumberWritten(old(table.pages)[r], number, newMax)]
    ensures variant.NumberAsSlot? ==> number == L.SlotOfNumber(oldMax)
    ensures !variant.NumberAsSlot? && SlotsAscend(old(table.pages)[r]) ==>
              FirstNotBelow(old(table.pages)[r], oldMax, number)
    ensures variant.LastSeparator? ==> newMax == LastKey(old(table.pages)[o])
  {
    var key := MaxKey(table, o, variant, ht);
    newMax := key;
    if variant.NumberAsSlot? {
      var slot := L.SlotOfNumber(oldMax);
      number := slot;
      if slot >= L.SLOTS_IN_PAGE {
        return true, number, newMax;
      }
      table.pages := table.pages[r := NumberWritten(table.pages[r], slot, key)];
    } else {
      var index := Table.InternalNodeFindChild(table.pages[r], oldMax);
      number := index;
      table.pages := table.pages[r := NumberWritten(table.pages[r], index, key)];
    }
    outside := false;
  }

  // ------------------------------------------------------------------
  // Lines 333 to 377 for an internal root

  // Page l has the root's content, page n is an empty internal page, and the root is over both.
  ghost predicate RootOver(c: Caps, s0: seq<Page>, s: seq<Page>, n: nat, l: nat, variant: Variant) {
    && 0 < n == |s0| && l == n + 1 && |s| == n + 2
    && s[l] == s0[0].(isRoot := false, parent := s[l].parent)
    && Sized(c, s[n]) && s[n].nodeType == INTERNAL && s[n].count == 0 && s[n].link == INVALID_PAGE_NUM
    && Sized(c, s[0]) && s[0].nodeType == INTERNAL && s[0].count == 1 && s[0].slots[0].child == l
    && (variant.LastSeparator? ==> HasKeys(s[l]) && s[0].slots[0].key == LastKey(s[l]))
    && forall q {:trigger SameBody(s0, s, q)} | 0 < q < n :: SameBody(s0, s, q)
  }

  method NewRoot(table: Table, n: nat, variant: Variant, ghost ht: Heights) returns (l: nat)
    requires n == |table.pages| && n + 2 <= FILE_PAGES_NUM && Bare(table.caps, table.pages, ht) && ht[0] > 0
    modifies table`pages
    ensures RootOver(table.caps, old(table.pages), table.pages, n, l, variant)
  {
    ghost var s0 := table.pages;
    RootKids(table.caps, s0, ht);
    l := table.CopyRoot(n, 0);
    CopiedBodies(table.caps, s0, table.pages, ht);
    FormRoot(table, l, n, variant, ht);
  }

  lemma RootKids(c: Caps, s: seq<Page>, ht: Heights)
    requires Bare(c, s, ht) && ht[0] > 0
    ensures BareAt(c, s, ht, 0) && s[0].link != INVALID_PAGE_NUM
    ensures forall j | 0 <= j < |Children(s[0])| :: 0 < Children(s[0])[j] < |s|
  {
    assert BareAt(c, s, ht, 0);
    forall j | 0 <= j < |Children(s[0])| ensures 0 < Children(s[0])[j] < |s| {
      assert At(ht, ht[0] - 1, Children(s[0])[j]);
    }
  }

  lemma CopiedBodies(c: Caps, s0: seq<Page>, s: seq<Page>, ht: Heights)
    requires Bare(c, s0, ht) && ht[0] > 0 && RootCopied(c, s0, s)
    ensures Bodies(c, s, ht, ht[0] - 1)
    ensures s[|s0| + 1].link in ht && ht[s[|s0| + 1].link] == ht[0] - 1
  {
    assert BareAt(c, s0, ht, 0);
    forall q {:trigger BareAt(c, s, ht, q)} | q in ht && ht[q] <= ht[0] - 1 ensures BareAt(c, s, ht, q) {
      assert BareAt(c, s0, ht, q);
    }
  }

  method FormRoot(table: Table, left: nat, right: nat, variant: Variant, ghost ht: Heights)
    requires 0 < left < |table.pages| <= FILE_PAGES_NUM && 0 < right < |table.pages| && left != right
    requires Sized(table.caps, table.pages[0]) && HasKeys(table.pages[left]) && table.pages[left].nodeType == INTERNAL
    requires 0 !in ht || 0 < ht[0]
    requires table.pages[left].link in ht && Bodies(table.caps, table.pages, ht, ht[table.pages[left].link])
    requires 0 in ht ==> ht[0] > ht[table.pages[left].link]
    modifies table`pages
    ensures |table.pages| == |old(table.pages)| && Sized(table.caps, table.pages[0])
    ensures var page := table.pages[0];
            && page.nodeType == INTERNAL && page.count == 1 && page.link == right && page.slots[0].child == left
            && (variant.LastSeparator? ==> page.slots[0].key == LastKey(old(table.pages)[left]))
    ensures forall q | 0 < q < |table.pages| ::
              var page := old(table.pages)[q];
              table.pages[q] == if q == left || q == right then page.(parent := 0) else page
  {
    ghost var s := table.pages;
    table.pages := table.pages[0 := Table.InitializeInternal(table.pages[0])];
    table.pages := table.pages[0 := table.pages[0].(isRoot := true)];
    table.pages := table.pages[0 := table.pages[0].(count := 1)];
    forall q {:trigger BareAt(table.caps, table.pages, ht, q)} | q in ht && ht[q] <= ht[s[left].link]
      ensures BareAt(table.caps, table.pages, ht, q)
    {
      assert BareAt(table.caps, s, ht, q);
    }
    var leftMax := MaxKey(table, left, variant, ht);
    table.pages := table.pages[0 := table.pages[0].(slots := table.pages[0].slots[0 := Slot(left, leftMax)])];
    table.pages := table.pages[0 := table.pages[0].(link := right)];
    table.pages := table.pages[left := table.pages[left].(parent := ROOT_PAGE_NUM)];
    table.pages := table.pages[right := table.pages[right].(parent := ROOT_PAGE_NUM)];
  }

  // ------------------------------------------------------------------
  // How many pages it takes

  // Pages allocated when page p takes one more child.
  ghost function Gain(c: Caps, s: seq<Page>, ht: Heights, p: nat): nat
    requires Bare(c, s, ht) && p in ht
    decreases ht[0] - ht[p]
  {
    assert ParentAt(s, ht, p);
    if s[p].count < c.innerMax then 0
    else if p == 0 then 2
    else 1 + Gain(c, s, ht, s[p].parent)
  }

  // The page apart from the keys in its slots.
  ghost predicate SameHead(s: seq<Page>, s': seq<Page>, q: nat) {
    && q < |s| && q < |s'| && s'[q] == s[q].(slots := s'[q].slots) && |s'[q].slots| == |s[q].slots|
    && forall j | 0 <= j < |s[q].slots| :: s'[q].slots[j].child == s[q].slots[j].child
  }

  // This depends on the pages from that height on.
  lemma {:induction false} GainSame(c: Caps, s: seq<Page>, s': seq<Page>, ht: Heights, ht': Heights, p: nat)
    requires Bare(c, s, ht) && Bare(c, s', ht') && p in ht
    requires forall q | q in ht && ht[q] >= ht[p] :: q in ht' && ht'[q] == ht[q] && SameHead(s, s', q)
    ensures p in ht' && Gain(c, s', ht', p) == Gain(c, s, ht, p)
    decreases ht[0] - ht[p]
  {
    assert SameHead(s, s', p) && ParentAt(s, ht, p);
    if p != 0 {
      GainSame(c, s, s', ht, ht', s[p].parent);
    }
  }

  // ------------------------------------------------------------------
  // internal_node_split_and_insert, with line 238 before line 237

  // Page x of the height below p belongs to page p, which is full.
  ghost predicate CanSplitPage(c: Caps, s: seq<Page>, ht: Heights, p: nat, x: nat) {
    Bare(c, s, ht) && p in ht && p < |s| && s[p].count == c.innerMax && ht[p] > 0 && At(ht, ht[p] - 1, x)
  }

  // On the root.
  method SplitRoot(table: Table, x: nat, variant: Variant, ghost ht: Heights) returns (ghost o: nat, outside: bool)
    requires CanSplitPage(table.caps, table.pages, ht, 0, x) && |table.pages| + 2 <= FILE_PAGES_NUM
    modifies table`pages
    ensures outside ==> variant.NumberAsSlot?
    ensures variant.NumberAsSlot? ==> OutsideIf(old(table.pages), 0, ht[0] - 1, outside)
    ensures !outside ==> Inserted(table.caps, old(table.pages), table.pages, ht, 0, o)
    ensures variant.LastSeparator? ==> SomeMisnamed(table.pages, 0)
  {
    ghost var s0, h := table.pages, ht[0] - 1;
    RootKids(table.caps, s0, ht);
    var oldMax := MaxKey(table, 0, variant, ht);
    var n := |table.pages|;
    var l := NewRoot(table, n, variant, ht);
    ghost var s1 := table.pages;
    o := l;
    RootDivides(table.caps, s0, s1, ht, n, l, x, variant);
    Divide(table, l, n, x, variant, ht, h);
    ghost var s2 := table.pages;
    DividedReads(table.caps, s1, s2, ht, h, l, n, x, 0);
    ghost var number, newMax;
    outside, number, newMax := WriteSeparator(table, 0, l, oldMax, variant, ht);
    if variant.NumberAsSlot? {
      OutsideOnce(s0, 0, h, outside, oldMax);
    }
    RootSplit(table.caps, s0, s1, s2, table.pages, ht, n, l, x, variant);
    if variant.LastSeparator? {
      assert Misnamed(table.pages, 0, 0);
    }
  }

  // Page o has those slots of page p that last, and all below is as before.
  ghost predicate Inserted(c: Caps, s0: seq<Page>, s: seq<Page>, ht: Heights, p: nat, o: nat) {
    && p in ht && p < |s0| <= |s| && o < |s| && s[o].nodeType == INTERNAL
    && KeepsSlots(s0[p], s[o], Lasting(c, s0[p]))
    && SameBelow(s0, s, ht, ht[p])
  }

  lemma RootDivides(c: Caps, s0: seq<Page>, s: seq<Page>, ht: Heights, n: nat, l: nat, x: nat, variant: Variant)
    requires CanSplitPage(c, s0, ht, 0, x) && RootOver(c, s0, s, n, l, variant) && |s| <= FILE_PAGES_NUM
    ensures CanDivide(c, s, ht, ht[0] - 1, l, n, x)
    ensures SameBelow(s0, s, ht, ht[0])
  {
    assert BareAt(c, s0, ht, 0);
    forall q {:trigger BareAt(c, s, ht, q)} | q in ht && ht[q] <= ht[0] - 1 ensures BareAt(c, s, ht, q) {
      assert BareAt(c, s0, ht, q) && SameBody(s0, s, q);
    }
    forall q {:trigger SameBody(s0, s, q)} | q in ht && ht[q] < ht[0] ensures SameBody(s0, s, q) {
      assert BareAt(c, s0, ht, q);
    }
  }

  // After a division the keys that line 234 needs can be read, and another page is as before.
  lemma DividedReads(c: Caps, s0: seq<Page>, s: seq<Page>, ht: Heights, h: nat, o: nat, n: nat, x: nat, r: nat)
    requires CanDivide(c, s0, ht, h, o, n, x) && Divided(c, s0, s, ht, h, o, n)
    requires r < |s0| && r != o && r != n && Sized(c, s0[r])
    ensures |s| == |s0| && HasKeys(s[o]) && s[o].nodeType == INTERNAL && HasKeys(s[n])
    ensures s[o].link in ht && Bodies(c, s, ht, ht[s[o].link])
    ensures Sized(c, s[r]) && SameBody(s0, s, r)
  {
    BodiesStay(c, s0, s, ht, h, o, n);
    assert SameBody(s0, s, r);
  }

  lemma RootSplit(c: Caps, s0: seq<Page>, s1: seq<Page>, s2: seq<Page>, s: seq<Page>, ht: Heights, n: nat, l: nat,
                  x: nat, variant: Variant)
    requires CanSplitPage(c, s0, ht, 0, x) && RootOver(c, s0, s1, n, l, variant) && SameBelow(s0, s1, ht, ht[0])
    requires Divided(c, s1, s2, ht, ht[0] - 1, l, n)
    requires |s| == |s2| && forall q | 0 < q < |s| :: s[q] == s2[q]
    ensures Inserted(c, s0, s, ht, 0, l)
  {
    forall q {:trigger SameBody(s0, s, q)} | q in ht && ht[q] < ht[0] ensures SameBody(s0, s, q) {
      assert q in PageNumbers(|s0|);
      assert SameBody(s0, s1, q) && SameBody(s1, s2, q);
    }
    assert BareAt(c, s0, ht, 0);
  }

  // The new page n beside its left half p, before the page above gets it.
  ghost predicate Beside(c: Caps, s0: seq<Page>, s: seq<Page>, ht: Heights, p: nat, n: nat) {
    && p in ht && p < |s0| && n == |s0| && |s| == n + 1
    && Bare(c, s, ht[n := ht[p]]) && Inserted(c, s0, s, ht, p, p)
    && s[p].parent == s0[p].parent
    && (forall q {:trigger SameBody(s0, s, q)} | q in ht && ht[q] == ht[p] && q != p :: SameBody(s0, s, q))
    && forall q {:trigger SameHead(s0, s, q)} | q in ht && ht[q] > ht[p] :: SameHead(s0, s, q)
  }

  // The old largest key, taken for a number, decides whether the write leaves the page.
  ghost predicate OutsideIf(s: seq<Page>, p: nat, h: nat, outside: bool)
    requires p < |s|
  {
    forall k: Key {:trigger LastBelow(s, s[p].link, h, k)} | LastBelow(s, s[p].link, h, k) ::
      outside <==> L.SlotOfNumber(k) >= L.SLOTS_IN_PAGE
  }

  lemma OutsideOnce(s: seq<Page>, p: nat, h: nat, outside: bool, key: Key)
    requires p < |s| && LastBelow(s, s[p].link, h, key) && (outside <==> L.SlotOfNumber(key) >= L.SLOTS_IN_PAGE)
    ensures OutsideIf(s, p, h, outside)
  {
    forall k: Key {:trigger LastBelow(s, s[p].link, h, k)} | LastBelow(s, s[p].link, h, k)
      ensures outside <==> L.SlotOfNumber(k) >= L.SLOTS_IN_PAGE
    {
      LastUnique(s, s[p].link, h, k, key);
    }
  }

  // On another page, up to line 234, and line 238.
  method DividePage(table: Table, p: nat, x: nat, variant: Variant, ghost ht: Heights)
    returns (r: nat, n: nat, outside: bool)
    requires CanSplitPage(table.caps, table.pages, ht, p, x) && p != 0 && |table.pages| < FILE_PAGES_NUM
    modifies table`pages
    ensures outside ==> variant.NumberAsSlot?
    ensures variant.NumberAsSlot? ==> OutsideIf(old(table.pages), p, ht[p] - 1, outside)
    ensures r == old(table.pages)[p].parent
    ensures !outside ==> Beside(table.caps, old(table.pages), table.pages, ht, p, n)
    ensures !outside && !variant.LastSeparator? ==>
              var was, half := old(table.pages)[p], table.caps.innerMax / 2;
              half < |was.slots| && table.pages[p].link == was.slots[half].child
  {
    ghost var s0 := table.pages;
    ghost var s1;
    var oldMax;
    r, n, oldMax, s1 := DivideWithNew(table, p, x, variant, ht);
    ghost var s2 := table.pages;
    ghost var number, newMax;
    outside, number, newMax := WriteSeparator(table, r, p, oldMax, variant, ht);
    if variant.NumberAsSlot? {
      OutsideOnce(s0, p, ht[p] - 1, outside, oldMax);
    }
    if !outside {
      table.pages := table.pages[n := table.pages[n].(parent := table.pages[p].parent)];
      DividedBeside(table.caps, s0, s1, s2, table.pages, ht, p, n, r, number, newMax);
    }
  }

  // Lines 194 to 232.
  method DivideWithNew(table: Table, p: nat, x: nat, variant: Variant, ghost ht: Heights)
    returns (r: nat, n: nat, oldMax: Key, ghost s1: seq<Page>)
    requires CanSplitPage(table.caps, table.pages, ht, p, x) && p != 0 && |table.pages| < FILE_PAGES_NUM
    modifies table`pages
    ensures p < |old(table.pages)| && r == old(table.pages)[p].parent
    ensures NewDivided(table.caps, old(table.pages), s1, table.pages, ht, p, n, r)
    ensures var page := table.pages[p];
            && HasKeys(page) && page.nodeType == INTERNAL && page.link in ht
            && Bodies(table.caps, table.pages, ht, ht[page.link])
    ensures Sized(table.caps, table.pages[r]) && table.pages[r].count <= table.caps.innerMax
    ensures !variant.LastSeparator? ==>
              var was, half := old(table.pages)[p], table.caps.innerMax / 2;
              && LastBelow(old(table.pages), was.link, ht[p] - 1, oldMax)
              && half < |was.slots| && table.pages[p].link == was.slots[half].child
  {
    ghost var s0, h := table.pages, ht[p] - 1;
    assert BareAt(table.caps, s0, ht, p) && ParentAt(s0, ht, p);
    oldMax := MaxKey(table, p, variant, ht);
    r := table.pages[p].parent;
    n := |table.pages|;
    table.GetPage(n);
    table.pages := table.pages[n := Table.InitializeInternal(table.pages[n])];
    s1 := table.pages;
    PageDivides(table.caps, s0, s1, ht, p, n, x, r);
    Divide(table, p, n, x, variant, ht, h);
    DividedReads(table.caps, s1, table.pages, ht, h, p, n, x, r);
  }

  lemma PageDivides(c: Caps, s0: seq<Page>, s: seq<Page>, ht: Heights, p: nat, n: nat, x: nat, r: nat)
    requires CanSplitPage(c, s0, ht, p, x) && p != 0 && r == s0[p].parent
    requires n == |s0| && |s| == n + 1 <= FILE_PAGES_NUM && forall q | 0 <= q < n :: s[q] == s0[q]
    requires Sized(c, s[n]) && s[n].nodeType == INTERNAL && s[n].count == 0 && s[n].link == INVALID_PAGE_NUM
    ensures CanDivide(c, s, ht, ht[p] - 1, p, n, x)
    ensures At(ht, ht[p] + 1, r) && r < n && r != p && BareAt(c, s0, ht, r)
    ensures Sized(c, s[r]) && s[r].count <= c.innerMax
  {
    assert BareAt(c, s0, ht, p) && ParentAt(s0, ht, p);
    assert BareAt(c, s0, ht, r);
    forall q {:trigger BareAt(c, s, ht, q)} | q in ht && ht[q] <= ht[p] - 1 ensures BareAt(c, s, ht, q) {
      assert BareAt(c, s0, ht, q);
    }
  }

  // Page p divided into itself and the new page n; page r is above.
  ghost predicate NewDivided(c: Caps, s0: seq<Page>, s1: seq<Page>, s: seq<Page>, ht: Heights, p: nat, n: nat, r: nat) {
    && p in ht && ht[p] > 0 && n !in ht && p < n && r < n && r != p && At(ht, ht[p] + 1, r)
    && n == |s0| && |s1| == |s| == n + 1 && (forall q | 0 <= q < n :: s1[q] == s0[q]) && !s1[n].isRoot
    && s1[n].nodeType == INTERNAL && s1[p].nodeType == INTERNAL
    && Divided(c, s1, s, ht, ht[p] - 1, p, n)
  }

  // The same with lines 234 and 238.
  ghost predicate Worked(c: Caps, s0: seq<Page>, s1: seq<Page>, s2: seq<Page>, s: seq<Page>, ht: Heights, p: nat,
                         n: nat, r: nat, number: nat, newMax: Key) {
    && NewDivided(c, s0, s1, s2, ht, p, n, r)
    && s == s2[r := NumberWritten(s2[r], number, newMax)][n := s2[n].(parent := s2[p].parent)]
  }

  lemma WorkedPage(c: Caps, s0: seq<Page>, s1: seq<Page>, s2: seq<Page>, s: seq<Page>, ht: Heights, p: nat,
                   n: nat, r: nat, number: nat, newMax: Key, q: nat)
    requires Worked(c, s0, s1, s2, s, ht, p, n, r, number, newMax) && q < n && q != p
    ensures if q == r then s[r] == NumberWritten(s0[r], number, newMax) else SameBody(s0, s, q)
    ensures s[q].parent == s0[q].parent || (At(ht, ht[p] - 1, q) && (s[q].parent == p || s[q].parent == n))
  {
    assert SameBody(s1, s2, q);
    assert s2[q].parent == s1[q].parent || At(ht, ht[p] - 1, q);
  }

  lemma KidsMore(page: Page, ht: Heights, n: nat, v: nat, h: int)
    requires h >= 0 && Kids(page, ht, h) && n !in ht
    ensures Kids(page, ht[n := v], h)
  {
  }

  lemma WorkedHalf(c: Caps, s0: seq<Page>, s1: seq<Page>, s2: seq<Page>, s: seq<Page>, ht: Heights, p: nat,
                   n: nat, r: nat, number: nat, newMax: Key, q: nat)
    requires Worked(c, s0, s1, s2, s, ht, p, n, r, number, newMax) && (q == p || q == n)
    requires BareAt(c, s0, ht, p) && ParentAt(s0, ht, p) && p != 0
    ensures BareAt(c, s, ht[n := ht[p]], q) && ParentAt(s, ht[n := ht[p]], q)
    ensures s[q].parent == s0[p].parent
  {
    KidsMore(s2[q], ht, n, ht[p], ht[p] - 1);
  }

  lemma WorkedOther(c: Caps, s0: seq<Page>, s1: seq<Page>, s2: seq<Page>, s: seq<Page>, ht: Heights, p: nat,
                    n: nat, r: nat, number: nat, newMax: Key, q: nat)
    requires Worked(c, s0, s1, s2, s, ht, p, n, r, number, newMax) && q < n && q != p
    requires BareAt(c, s0, ht, q) && ParentAt(s0, ht, q)
    ensures BareAt(c, s, ht[n := ht[p]], q) && ParentAt(s, ht[n := ht[p]], q)
  {
    WorkedPage(c, s0, s1, s2, s, ht, p, n, r, number, newMax, q);
    if ht[q] > 0 {
      KidsMore(s0[q], ht, n, ht[p], ht[q] - 1);
    }
  }

  lemma DividedBeside(c: Caps, s0: seq<Page>, s1: seq<Page>, s2: seq<Page>, s: seq<Page>, ht: Heights, p: nat,
                      n: nat, r: nat, number: nat, newMax: Key)
    requires Worked(c, s0, s1, s2, s, ht, p, n, r, number, newMax) && Bare(c, s0, ht) && p != 0 && n < FILE_PAGES_NUM
    requires s0[p].count == c.innerMax
    ensures Beside(c, s0, s, ht, p, n)
  {
    assert BareAt(c, s0, ht, p) && ParentAt(s0, ht, p);
    WorkedHalf(c, s0, s1, s2, s, ht, p, n, r, number, newMax, p);
    WorkedBare(c, s0, s1, s2, s, ht, p, n, r, number, newMax);
    WorkedSame(c, s0, s1, s2, s, ht, p, n, r, number, newMax);
  }

  lemma WorkedBare(c: Caps, s0: seq<Page>, s1: seq<Page>, s2: seq<Page>, s: seq<Page>, ht: Heights, p: nat,
                   n: nat, r: nat, number: nat, newMax: Key)
    requires Worked(c, s0, s1, s2, s, ht, p, n, r, number, newMax) && Bare(c, s0, ht) && p != 0 && n < FILE_PAGES_NUM
    ensures Bare(c, s, ht[n := ht[p]])
  {
    var ht' := ht[n := ht[p]];
    forall q {:trigger BareAt(c, s, ht', q)} {:trigger ParentAt(s, ht', q)} | q in ht'
      ensures BareAt(c, s, ht', q) && ParentAt(s, ht', q)
    {
      assert BareAt(c, s0, ht, p) && ParentAt(s0, ht, p);
      if q == p || q == n {
        WorkedHalf(c, s0, s1, s2, s, ht, p, n, r, number, newMax, q);
      } else {
        assert BareAt(c, s0, ht, q) && ParentAt(s0, ht, q);
        WorkedOther(c, s0, s1, s2, s, ht, p, n, r, number, newMax, q);
      }
    }
    BareMore(c, s0, s, ht, p, n);
  }

  lemma BareMore(c: Caps, s0: seq<Page>, s: seq<Page>, ht: Heights, p: nat, n: nat)
    requires Bare(c, s0, ht) && p in ht && p != 0 && n == |s0| && |s| == n + 1 <= FILE_PAGES_NUM
    requires forall q {:trigger BareAt(c, s, ht[n := ht[p]], q)} {:trigger ParentAt(s, ht[n := ht[p]], q)} |
               q in ht[n := ht[p]] :: BareAt(c, s, ht[n := ht[p]], q) && ParentAt(s, ht[n := ht[p]], q)
    ensures Bare(c, s, ht[n := ht[p]])
  {
    assert ht[n := ht[p]].Keys == PageNumbers(n + 1);
  }

  lemma WorkedSame(c: Caps, s0: seq<Page>, s1: seq<Page>, s2: seq<Page>, s: seq<Page>, ht: Heights, p: nat,
                   n: nat, r: nat, number: nat, newMax: Key)
    requires Worked(c, s0, s1, s2, s, ht, p, n, r, number, newMax) && ht.Keys == PageNumbers(n)
    ensures SameBelow(s0, s, ht, ht[p])
    ensures forall q {:trigger SameBody(s0, s, q)} | q in ht && ht[q] == ht[p] && q != p :: SameBody(s0, s, q)
    ensures forall q {:trigger SameHead(s0, s, q)} | q in ht && ht[q] > ht[p] :: SameHead(s0, s, q)
  {
    forall q {:trigger SameBody(s0, s, q)} | q in ht && ht[q] <= ht[p] && q != p ensures SameBody(s0, s, q) {
      assert q in PageNumbers(n);
      WorkedPage(c, s0, s1, s2, s, ht, p, n, r, number, newMax, q);
    }
    forall q {:trigger SameHead(s0, s, q)} | q in ht && ht[q] > ht[p] ensures SameHead(s0, s, q) {
      assert q in PageNumbers(n);
      WorkedPage(c, s0, s1, s2, s, ht, p, n, r, number, newMax, q);
    }
  }

  // ------------------------------------------------------------------
  // The whole cascade

  // internal_node_insert of a page x that belongs to page r.
  method InsertChild(table: Table, r: nat, x: nat, variant: Variant, ghost ht: Heights) returns (ghost o: nat)
    requires !variant.NumberAsSlot?
    requires Bare(table.caps, table.pages, ht) && r in ht && ht[r] > 0 && At(ht, ht[r] - 1, x)
    requires |table.pages| + Gain(table.caps, table.pages, ht, r) <= FILE_PAGES_NUM
    modifies table`pages
    ensures Inserted(table.caps, old(table.pages), table.pages, ht, r, o)
    ensures variant.LastSeparator? && ht[r] > 1 ==> exists d: nat :: SomeMisnamed(table.pages, d)
    decreases ht[0] - ht[r], 1
  {
    ghost var s0 := table.pages;
    assert BareAt(table.caps, s0, ht, r) && ParentAt(s0, ht, r);
    if table.pages[r].count >= table.caps.innerMax {
      o := SplitPage(table, r, x, variant, ht);
      return;
    }
    Place(table, r, x, variant, ht, ht[r] - 1);
    o := r;
    PlacedInserted(table.caps, s0, table.pages, ht, r, x);
  }

  lemma PlacedInserted(c: Caps, s0: seq<Page>, s: seq<Page>, ht: Heights, r: nat, x: nat)
    requires r in ht && ht[r] > 0 && r < |s0| && s0[r].nodeType == INTERNAL && s0[r].count < c.innerMax
    requires |s| == |s0| && s == s0[r := s[r]] && Taken(c, s0[r], s[r], ht, ht[r] - 1) && ht.Keys == PageNumbers(|s0|)
    ensures Inserted(c, s0, s, ht, r, r)
  {
    forall q {:trigger SameBody(s0, s, q)} | q in ht && ht[q] < ht[r] ensures SameBody(s0, s, q) {
      assert q in PageNumbers(|s0|);
    }
  }

  // internal_node_split_and_insert.
  method SplitPage(table: Table, p: nat, x: nat, variant: Variant, ghost ht: Heights) returns (ghost o: nat)
    requires !variant.NumberAsSlot?
    requires CanSplitPage(table.caps, table.pages, ht, p, x)
    requires |table.pages| + Gain(table.caps, table.pages, ht, p) <= FILE_PAGES_NUM
    modifies table`pages
    ensures Inserted(table.caps, old(table.pages), table.pages, ht, p, o)
    ensures variant.LastSeparator? ==> exists d: nat :: SomeMisnamed(table.pages, d)
    decreases ht[0] - ht[p], 0
  {
    ghost var s0 := table.pages;
    assert BareAt(table.caps, s0, ht, p) && ParentAt(s0, ht, p);
    var outside;
    if table.pages[p].isRoot {
      o, outside := SplitRoot(table, x, variant, ht);
      return;
    }
    o := p;
    var r, n;
    r, n, outside := DividePage(table, p, x, variant, ht);
    ghost var s, ht' := table.pages, ht[n := ht[p]];
    BesideGain(table.caps, s0, s, ht, p, n, r);
    ghost var above;
    above := InsertChild(table, r, n, variant, ht');
    BesideInserted(table.caps, s0, s, table.pages, ht, p, n, r, above);
  }

  lemma BesideGain(c: Caps, s0: seq<Page>, s: seq<Page>, ht: Heights, p: nat, n: nat, r: nat)
    requires Bare(c, s0, ht) && Beside(c, s0, s, ht, p, n) && p != 0 && s0[p].count == c.innerMax && r == s0[p].parent
    ensures r in ht && ht[r] == ht[p] + 1
    ensures var ht' := ht[n := ht[p]];
            && r in ht' && ht'[r] == ht[r] && ht'[0] == ht[0] && At(ht', ht'[r] - 1, n)
            && Gain(c, s, ht', r) + 1 == Gain(c, s0, ht, p)
  {
    assert ParentAt(s0, ht, p);
    GainSame(c, s0, s, ht, ht[n := ht[p]], r);
  }

  // The levels above leave both halves alone.
  lemma BesideInserted(c: Caps, s0: seq<Page>, s1: seq<Page>, s: seq<Page>, ht: Heights, p: nat, n: nat, r: nat, o: nat)
    requires Beside(c, s0, s1, ht, p, n) && Inserted(c, s1, s, ht[n := ht[p]], r, o)
    requires r in ht && ht[r] == ht[p] + 1 && ht.Keys == PageNumbers(n)
    ensures Inserted(c, s0, s, ht, p, p)
  {
    var ht' := ht[n := ht[p]];
    assert n !in ht;
    SameBelowTwice(s0, s1, s, ht, ht', ht[p], ht[r]);
    assert SameBody(s1, s, p) by {
      assert p in ht' && ht'[p] < ht'[r];
    }
  }

  // ------------------------------------------------------------------
  // Pages that no table has

  // Internal page d has a page in slot x, with another key than the last one below that page.
  ghost predicate WrongKey(s: seq<Page>, d: nat, x: Slot, depth: nat, key: Key) {
    && d < |s| && s[d].nodeType == INTERNAL && Holds(s[d], x)
    && LastBelow(s, x.child, depth, key) && x.key != key
  }

  lemma {:induction false} LastBelowIsMax(c: Caps, s: seq<Page>, g: Model, q: nat, depth: nat, key: Key)
    requires TableOk(c, s, g) && LastBelow(s, q, depth, key)
    ensures q in g.t && MaxBelow(g.t, g.top, q) == key
    decreases depth
  {
    assert q in PageNumbers(|s|);
    assert PageOk(c, s, g, q) && NodeOk(g.t, g.top, q);
    if depth > 0 {
      assert Children(s[q])[s[q].count] == s[q].link;
      MaxBelowInRange(g.t, g.top, q);
      LastBelowIsMax(c, s, g, s[q].link, depth - 1, key);
    }
  }

  lemma WrongKeyNoTable(c: Caps, s: seq<Page>, d: nat, x: Slot, depth: nat, key: Key)
    requires WrongKey(s, d, x, depth, key)
    ensures forall g :: !TableOk(c, s, g)
  {
    forall g ensures !TableOk(c, s, g) {
      if TableOk(c, s, g) {
        assert d in PageNumbers(|s|);
        assert PageOk(c, s, g, d);
        var k: nat :| k < s[d].count <= |s[d].slots| && s[d].slots[k] == x;
        assert Children(s[d])[k] == x.child;
        KidsAscend(g.t, g.top, d, k, k + 1);
        LastBelowIsMax(c, s, g, x.child, depth, key);
      }
    }
  }

  // The levels above leave it as it is.
  lemma WrongKeyStays(c: Caps, s0: seq<Page>, s: seq<Page>, ht: Heights, r: nat, o: nat, i: nat, depth: nat, key: Key)
    requires Bare(c, s0, ht) && Inserted(c, s0, s, ht, r, o) && ht[r] == depth + 1
    requires i < Lasting(c, s0[r]) && i < |s0[r].slots| && At(ht, depth, s0[r].slots[i].child)
    requires LastBelow(s0, s0[r].slots[i].child, depth, key) && s0[r].slots[i].key != key
    ensures WrongKey(s, o, s0[r].slots[i], depth, key)
  {
    LastBelowSame(c, s0, s, ht, s0[r].slots[i].child, depth, key);
  }

  lemma {:induction false} LastBelowSame(c: Caps, s0: seq<Page>, s: seq<Page>, ht: Heights, q: nat, depth: nat,
                                         key: Key)
    requires Bare(c, s0, ht) && SameBelow(s0, s, ht, depth + 1) && At(ht, depth, q) && LastBelow(s0, q, depth, key)
    ensures LastBelow(s, q, depth, key)
    decreases depth
  {
    assert BareAt(c, s0, ht, q) && SameBody(s0, s, q);
    if depth > 0 {
      LastBelowSame(c, s0, s, ht, s0[q].link, depth - 1, key);
    }
  }

  // ------------------------------------------------------------------
  // From the pages of a tree

  ghost function HeightsOf(g: Model): (ht: Heights)
    ensures ht.Keys == g.t.Keys && forall q | q in g.t :: ht[q] == g.t[q].ht
  {
    map q | q in g.t :: g.t[q].ht
  }

  // Page p lists its node's children but number pos; nothing is said of its separators.
  ghost predicate Lists(c: Caps, page: Page, g: Model, p: nat, pos: nat)
    requires p in g.t && pos < |g.t[p].kids|
  {
    && Sized(c, page) && (page.isRoot <==> p == 0) && (p != 0 ==> page.parent == g.t[p].parent)
    && page.nodeType == INTERNAL && page.count <= c.innerMax && page.link != INVALID_PAGE_NUM
    && Children(page) == RemoveAt(g.t[p].kids, pos)
  }

  // The node's page lacks its child number pos, page n, and all other pages are in order, apart from n's parent.
  ghost predicate AllBut(c: Caps, s: seq<Page>, g: Model, r: nat, n: nat, pos: nat) {
    && AlmostSplit(c, s, g, r, n) && r < |s| && n < |s| && g.t[r].ht > 0
    && 0 < pos < |g.t[r].kids| && g.t[r].kids[pos] == n && 3 <= |g.t[r].kids| <= c.innerMax + 2
    && Lists(c, s[r], g, r, pos)
  }

  lemma PendingAllBut(c: Caps, s: seq<Page>, g: Model, r: nat, n: nat, pos: nat)
    requires Pending(c, s, g, r, n, pos)
    ensures AllBut(c, s, g, r, n, pos)
  {
    ListedByParent(g.t, g.top, r, n);
  }

  // With the separators that last in order, the node lacks its new child and nothing else.
  lemma AllButPending(c: Caps, s: seq<Page>, g: Model, r: nat, n: nat, pos: nat)
    requires AllBut(c, s, g, r, n, pos) && ExactUpTo(s[r], g.t, Lasting(c, s[r]))
    ensures Pending(c, s, g, r, n, pos)
  {
    ListedByParent(g.t, g.top, r, n);
    RaisePending(c, s, s, g, r, n, pos);
  }

  lemma InnerBare(c: Caps, page: Page, g: Model, s: seq<Page>, q: nat, kids: seq<nat>)
    requires q in g.t && q < |s| && s[q] == page && Sized(c, page) && (page.isRoot <==> q == 0)
    requires g.t[q].ht > 0 && page.nodeType == INTERNAL && page.count <= c.innerMax && page.link != INVALID_PAGE_NUM
    requires Children(page) == kids && 2 <= |kids|
    requires forall j | 0 <= j < |kids| :: kids[j] in g.t && g.t[kids[j]].ht + 1 == g.t[q].ht
    ensures BareAt(c, s, HeightsOf(g), q)
  {
    assert Children(page)[page.count] == page.link;
    forall j | 0 <= j < page.count ensures At(HeightsOf(g), g.t[q].ht - 1, page.slots[j].child) {
      assert Children(page)[j] == kids[j];
    }
  }

  lemma BodyBare(c: Caps, s: seq<Page>, g: Model, q: nat)
    requires TreeOk(g.t, g.top) && g.t[0].ht > 0 && q < |s| && BodyOk(c, s[q], g, q)
    requires g.t[q].ht > 0 ==> 2 <= |g.t[q].kids|
    ensures BareAt(c, s, HeightsOf(g), q)
  {
    if g.t[q].ht > 0 {
      forall j | 0 <= j < |g.t[q].kids| ensures g.t[q].kids[j] in g.t && g.t[g.t[q].kids[j]].ht + 1 == g.t[q].ht {
        KidInTree(g, q, j);
      }
      InnerBare(c, s[q], g, s, q, g.t[q].kids);
    }
  }

  lemma HeadBare(c: Caps, s: seq<Page>, g: Model, r: nat, n: nat, pos: nat)
    requires AllBut(c, s, g, r, n, pos)
    ensures BareAt(c, s, HeightsOf(g), r)
  {
    var kids := RemoveAt(g.t[r].kids, pos);
    forall j | 0 <= j < |kids| ensures kids[j] in g.t && g.t[kids[j]].ht + 1 == g.t[r].ht {
      KidInTree(g, r, if j < pos then j else j + 1);
    }
    InnerBare(c, s[r], g, s, r, kids);
  }

  lemma AllButAt(c: Caps, s: seq<Page>, g: Model, r: nat, n: nat, pos: nat, q: nat)
    requires AllBut(c, s, g, r, n, pos) && s[n].parent == r && q in g.t
    ensures BareAt(c, s, HeightsOf(g), q) && ParentAt(s, HeightsOf(g), q)
  {
    assert NodeOk(g.t, g.top, r) && NodeOk(g.t, g.top, q);
    if q != 0 {
      ListedByParent(g.t, g.top, g.t[q].parent, q);
    }
    if q == r {
      HeadBare(c, s, g, r, n, pos);
    } else {
      if q == n {
        ListedByParent(g.t, g.top, r, n);
      } else {
        assert PageOk(c, s, g, q);
      }
      BodyBare(c, s, g, q);
    }
  }

  lemma AllButBare(c: Caps, s: seq<Page>, g: Model, r: nat, n: nat, pos: nat)
    requires AllBut(c, s, g, r, n, pos) && s[n].parent == r
    ensures Bare(c, s, HeightsOf(g))
  {
    var ht := HeightsOf(g);
    forall q | q in ht
      ensures BareAt(c, s, ht, q) && ParentAt(s, ht, q) && ht[q] <= ht[0] && (ht[q] == ht[0] ==> q == 0)
    {
      AllButAt(c, s, g, r, n, pos, q);
      assert NodeOk(g.t, g.top, q);
    }
  }

  // The pages it takes are those foreseen from the tree.
  lemma AllButGain(c: Caps, s: seq<Page>, g: Model, r: nat, n: nat, pos: nat)
    requires AllBut(c, s, g, r, n, pos) && s[n].parent == r
    ensures Bare(c, s, HeightsOf(g)) && Gain(c, s, HeightsOf(g), r) == PagesToSettle(g, c.innerMax, r)
  {
    AllButBare(c, s, g, r, n, pos);
    assert |Children(s[r])| == s[r].count + 1 == |g.t[r].kids| - 1;
    assert NodeOk(g.t, g.top, r);
    if r != 0 {
      ListedByParent(g.t, g.top, g.t[r].parent, r);
      GainFromTree(c, s, g, r, n, pos, g.t[r].parent);
    }
  }

  // Following right children from a page of the tree leads to its largest key.
  lemma {:induction false} LastInTree(c: Caps, s: seq<Page>, g: Model, r: nat, n: nat, q: nat, key: Key)
    requires AlmostSplit(c, s, g, r, n) && q in g.t && g.t[q].ht < g.t[r].ht && key == MaxBelow(g.t, g.top, q)
    ensures LastBelow(s, q, g.t[q].ht, key)
    decreases g.t[q].ht
  {
    assert NodeOk(g.t, g.top, q) && NodeOk(g.t, g.top, r);
    if q != n {
      assert PageOk(c, s, g, q);
    }
    assert q in PageNumbers(|s|);
    BodyLast(c, s[q], g, q);
    if g.t[q].ht > 0 {
      LastInTree(c, s, g, r, n, s[q].link, key);
    }
  }

  lemma BodyLast(c: Caps, page: Page, g: Model, q: nat)
    requires TreeOk(g.t, g.top) && BodyOk(c, page, g, q) && (g.t[q].ht == 0 ==> q != 0)
    ensures g.t[q].ht == 0 ==>
              page.nodeType == LEAF && HasKeys(page) && LastKey(page) == MaxBelow(g.t, g.top, q)
    ensures g.t[q].ht > 0 ==>
              && page.nodeType == INTERNAL && page.link in g.t && g.t[page.link].ht + 1 == g.t[q].ht
              && MaxBelow(g.t, g.top, page.link) == MaxBelow(g.t, g.top, q)
  {
    if g.t[q].ht > 0 {
      MaxBelowInRange(g.t, g.top, q);
      assert Children(page)[page.count] == page.link;
    }
  }

  lemma AllButSplits(c: Caps, s: seq<Page>, g: Model, r: nat, n: nat, pos: nat)
    requires AllBut(c, s, g, r, n, pos) && s[n].parent == r && |g.t[r].kids| == c.innerMax + 2
    ensures CanSplitPage(c, s, HeightsOf(g), r, n)
  {
    AllButBare(c, s, g, r, n, pos);
    assert |Children(s[r])| == s[r].count + 1 == |g.t[r].kids| - 1;
    ListedByParent(g.t, g.top, r, n);
  }

  lemma {:induction false} GainFromTree(c: Caps, s: seq<Page>, g: Model, r: nat, n: nat, pos: nat, a: nat)
    requires AllBut(c, s, g, r, n, pos) && a in g.t && g.t[a].ht > g.t[r].ht && Bare(c, s, HeightsOf(g))
    ensures Gain(c, s, HeightsOf(g), a) == PagesToGain(g, c.innerMax, a)
    decreases g.t[0].ht - g.t[a].ht
  {
    ListedByParent(g.t, g.top, r, n);
    assert PageOk(c, s, g, a) && NodeOk(g.t, g.top, a);
    assert |Children(s[a])| == s[a].count + 1;
    if a != 0 {
      ListedByParent(g.t, g.top, g.t[a].parent, a);
      assert NodeOk(g.t, g.top, g.t[a].parent);
      GainFromTree(c, s, g, r, n, pos, g.t[a].parent);
    }
  }
}
