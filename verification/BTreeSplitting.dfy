/** Value-level lemmas about splitting a full internal page. */
module BTreeSplitting {
  import opened Sequences
  import opened BTreeShape
  import opened BTreePages
  import opened BTreePlacing

  // ------------------------------------------------------------------
  // Moving the upper half of the children of page o to the empty page n

  ghost predicate CanHalve(c: Caps, s: seq<Page>, g: Model, o: nat, n: nat, h: nat) {
    && TreeOk(g.t, g.top)
    && o != n && o < |s| && n < |s| <= FILE_PAGES_NUM && n !in g.t
    && o in g.t && g.t[o].ht == h + 1
    && Sized(c, s[o]) && s[o].nodeType == INTERNAL
    && s[o].count == c.innerMax && s[o].link != INVALID_PAGE_NUM && Ordered(c, s[o], g, h)
    && Sized(c, s[n]) && s[n].nodeType == INTERNAL && s[n].count == 0 && s[n].link == INVALID_PAGE_NUM
    && SpineOk(s, g, h)
  }

  // The children of o from position i + 1 on are in n, and point to it.
  ghost predicate Moving(c: Caps, s0: seq<Page>, s: seq<Page>, g: Model, o: nat, n: nat, h: nat, i: nat)
    requires CanHalve(c, s0, g, o, n, h) && i < c.innerMax
  {
    var ch := Children(s0[o]);
    && |s| == |s0|
    && s[o] == s0[o].(count := i + 1, link := INVALID_PAGE_NUM)
    && Sized(c, s[n])
    && s[n] == s0[n].(count := c.innerMax - 1 - i, link := s[n].link, slots := s[n].slots)
    && s[n].link != INVALID_PAGE_NUM
    && Children(s[n]) == Upper(ch, i + 1)
    && Keyed(c, s[n], g, h)
    && forall q | 0 <= q < |s| && q != o && q != n ::
         s[q] == if q in Upper(ch, i + 1) then s0[q].(parent := n) else s0[q]
  }

  // Pages o and n hold the lower and upper part `Lower(ch, half)`, `Upper(ch, half)` of the children.
  ghost predicate Parts(c: Caps, s0: seq<Page>, s: seq<Page>, g: Model, o: nat, n: nat, h: nat, ch: seq<nat>,
                        half: nat) {
    && o < |s0| && n < |s0| && o != n && half <= |ch|
    && |s| == |s0|
    && PartOk(c, s0[o], s[o], g, h, Lower(ch, half))
    && PartOk(c, s0[n], s[n], g, h, Upper(ch, half))
    && forall q | 0 <= q < |s| && q != o && q != n ::
         s[q] == if q in Upper(ch, half) then s0[q].(parent := n) else s0[q]
  }

  // Page o keeps the lower part with its separators as they were, page n holds the upper part.
  ghost predicate Halved(c: Caps, s0: seq<Page>, s: seq<Page>, g: Model, o: nat, n: nat, h: nat, ch: seq<nat>,
                         half: nat) {
    && o < |s0| && n < |s0| && o != n && 0 < half <= |ch|
    && |s| == |s0|
    && Sized(c, s[o]) && half <= c.innerMax + 1
    && s[o] == s0[o].(count := half - 1, link := ch[half - 1]) && s[o].link != INVALID_PAGE_NUM
    && Children(s[o]) == Lower(ch, half) && Ordered(c, s[o], g, h)
    && PartOk(c, s0[n], s[n], g, h, Upper(ch, half))
    && forall q | 0 <= q < |s| && q != o && q != n ::
         s[q] == if q in Upper(ch, half) then s0[q].(parent := n) else s0[q]
  }

  // With exact separators in the lower part, both parts are in order.
  lemma HalvedParts(c: Caps, s0: seq<Page>, s: seq<Page>, g: Model, o: nat, n: nat, h: nat, ch: seq<nat>, half: nat)
    requires Halved(c, s0, s, g, o, n, h, ch, half)
    requires Sized(c, s0[o]) && half - 1 <= s0[o].count <= c.innerMax && Children(s0[o]) == ch
    requires KeyedUpTo(s0[o], g, half - 1)
    ensures Parts(c, s0, s, g, o, n, h, ch, half)
  {
    forall j | 0 <= j < s[o].count
      ensures Children(s[o])[j] in g.t && s[o].slots[j].key == MaxBelow(g.t, g.top, Children(s[o])[j])
    {
      assert Children(s[o])[j] == ch[j];
    }
  }

  ghost predicate PartOk(c: Caps, was: Page, page: Page, g: Model, h: nat, ch: seq<nat>) {
    && Sized(c, page) && page.count <= c.innerMax && page.link != INVALID_PAGE_NUM
    && page == was.(count := page.count, link := page.link, slots := page.slots)
    && Children(page) == ch && Keyed(c, page, g, h)
  }

  lemma ChildFacts(c: Caps, s: seq<Page>, g: Model, o: nat, n: nat, h: nat)
    requires CanHalve(c, s, g, o, n, h)
    ensures forall j | 0 <= j < |Children(s[o])| ::
              var k := Children(s[o])[j];
              k in g.t && g.t[k].ht == h && k < |s| && k != o && k != n && k < INVALID_PAGE_NUM
    ensures forall i, j | 0 <= i < j < |Children(s[o])| :: Children(s[o])[i] != Children(s[o])[j]
  {
    forall j | 0 <= j < |Children(s[o])| ensures Children(s[o])[j] in g.t && Children(s[o])[j] < |s| {
      assert SpinePage(s, g, Children(s[o])[j]);
    }
  }

  lemma MovingSpine(c: Caps, s0: seq<Page>, s: seq<Page>, g: Model, o: nat, n: nat, h: nat, i: nat)
    requires CanHalve(c, s0, g, o, n, h) && i < c.innerMax && Moving(c, s0, s, g, o, n, h, i)
    ensures SpineOk(s, g, h)
  {
    SpineFrame(s0, s, g, h);
  }

  lemma MovingPlace(c: Caps, s0: seq<Page>, s: seq<Page>, g: Model, o: nat, n: nat, h: nat, i: nat)
    requires CanHalve(c, s0, g, o, n, h) && i < c.innerMax && Moving(c, s0, s, g, o, n, h, i)
    ensures CanPlace(c, s, g, n, Children(s0[o])[i], h, 0)
  {
    ChildFacts(c, s0, g, o, n, h);
    MovingSpine(c, s0, s, g, o, n, h, i);
    var ch := Children(s0[o]);
    forall j | 0 <= j < |Children(s[n])|
      ensures MaxBelow(g.t, g.top, ch[i]) < MaxBelow(g.t, g.top, Children(s[n])[j])
    {
      assert Children(s[n])[j] == ch[i + 1 + j];
    }
  }

  lemma MovingStart(c: Caps, s0: seq<Page>, s: seq<Page>, g: Model, o: nat, n: nat, h: nat, page: Page)
    requires CanHalve(c, s0, g, o, n, h)
    requires var right := s0[o].link;
      && |s| == |s0| && right in g.t && right < |s0| && right != o && right != n
      && Placed(c, g, s0[n], page, right, h, 0)
      && s == s0[n := page][right := s0[right].(parent := n)][o := s0[o].(link := INVALID_PAGE_NUM)]
    ensures Moving(c, s0, s, g, o, n, h, c.innerMax - 1)
  {
    FirstPlaced(c, g, s0[n], page, s0[o].link, h);
    FirstMoved(s0, s, o, n, s0[o].link, page);
    UpperLast(Children(s0[o]), c.innerMax);
  }

  // The one child of a page that was empty.
  lemma FirstPlaced(c: Caps, g: Model, was: Page, page: Page, x: nat, h: nat)
    requires Placed(c, g, was, page, x, h, 0) && was.count == 0 && was.link == INVALID_PAGE_NUM
    ensures Children(page) == [x] && page.count == 0
  {
    assert Children(was) == [];
  }

  lemma FirstMoved(s0: seq<Page>, s: seq<Page>, o: nat, n: nat, x: nat, page: Page)
    requires o < |s0| && n < |s0| && x < |s0| && o != n && x != o && x != n
    requires s == s0[n := page][x := s0[x].(parent := n)][o := s0[o].(link := INVALID_PAGE_NUM)]
    ensures |s| == |s0| && s[n] == page && s[o] == s0[o].(link := INVALID_PAGE_NUM)
    ensures forall q {:trigger s[q]} | 0 <= q < |s| && q != o && q != n ::
              s[q] == if q in [x] then s0[q].(parent := n) else s0[q]
  {
  }

  lemma UpperLast(ch: seq<nat>, m: nat)
    requires |ch| == m + 1
    ensures Upper(ch, m) == [ch[m]]
  {
  }

  lemma MovingStep(c: Caps, s0: seq<Page>, s: seq<Page>, s': seq<Page>, g: Model, o: nat, n: nat, h: nat, i: nat,
                   page: Page)
    requires CanHalve(c, s0, g, o, n, h) && 0 < i < c.innerMax && Moving(c, s0, s, g, o, n, h, i)
    requires var cur := Children(s0[o])[i];
      && cur < |s| && cur != o && cur != n
      && Placed(c, g, s[n], page, cur, h, 0)
      && s' == s[n := page][cur := s[cur].(parent := n)][o := s[o].(count := i)]
    ensures Moving(c, s0, s', g, o, n, h, i - 1)
  {
    var ch := Children(s0[o]);
    ChildFacts(c, s0, g, o, n, h);
    UpperOneMore(ch, i);
    FrontPlaced(c, g, s[n], page, ch[i], h);
  }

  lemma UpperOneMore(ch: seq<nat>, i: nat)
    requires i < |ch|
    ensures Upper(ch, i) == [ch[i]] + Upper(ch, i + 1)
  {
  }

  lemma FrontPlaced(c: Caps, g: Model, was: Page, page: Page, x: nat, h: nat)
    requires Placed(c, g, was, page, x, h, 0) && was.link != INVALID_PAGE_NUM
    ensures Children(page) == [x] + Children(was) && page.count == was.count + 1
  {
    assert Children(page) == [x] + Children(was);
    assert |Children(page)| == page.count + 1 && |Children(was)| == was.count + 1;
  }

  lemma MovingEnd(c: Caps, s0: seq<Page>, s: seq<Page>, s': seq<Page>, g: Model, o: nat, n: nat, h: nat)
    requires CanHalve(c, s0, g, o, n, h) && Moving(c, s0, s, g, o, n, h, c.innerMax / 2)
    requires s' == s[o := s[o].(count := c.innerMax / 2, link := s[o].slots[c.innerMax / 2].child)]
    ensures Halved(c, s0, s', g, o, n, h, Children(s0[o]), c.innerMax / 2 + 1)
  {
    var ch, half := Children(s0[o]), c.innerMax / 2 + 1;
    ChildFacts(c, s0, g, o, n, h);
    assert Children(s'[o]) == Lower(ch, half);
  }

  // ------------------------------------------------------------------
  // Splitting node o, whose page is full and still lacks child x (number pos), into o and the empty page n

  ghost predicate FanExcept(t: Nodes, innerMax: nat, a: nat, b: nat) {
    forall q | q in t && t[q].ht > 0 && q != a && q != b :: 2 <= |t[q].kids| <= innerMax + 1
  }

  ghost predicate SplitReady(c: Caps, s: seq<Page>, g: Model, o: nat, n: nat, x: nat, pos: nat) {
    && TreeOk(g.t, g.top)
    && o in g.t && o != 0 && g.t[o].ht > 0
    && n !in g.t && n < |s| <= FILE_PAGES_NUM
    && g.t.Keys + {n} == PageNumbers(|s|)
    && FanExcept(g.t, c.innerMax, o, g.t[o].parent)
    && |g.t[o].kids| == c.innerMax + 2 && 0 < pos < |g.t[o].kids| && g.t[o].kids[pos] == x
    && Lacking(c, s[o], g, o, pos)
    && Sized(c, s[n]) && s[n].nodeType == INTERNAL && !s[n].isRoot
    && s[n].count == 0 && s[n].link == INVALID_PAGE_NUM
    && (forall q {:trigger PageOk(c, s, g, q)} |
          q in g.t && q != o && q != g.t[o].parent && q != x :: PageOk(c, s, g, q))
    && x in g.t && BodyOk(c, s[x], g, x)
  }

  lemma ReadyHalve(c: Caps, s: seq<Page>, g: Model, o: nat, n: nat, x: nat, pos: nat)
    requires SplitReady(c, s, g, o, n, x, pos)
    ensures CanHalve(c, s, g, o, n, g.t[o].ht - 1)
    ensures KeyedUpTo(s[o], g, c.innerMax / 2)
  {
    var h := g.t[o].ht - 1;
    LackingKeyed(c, s[o], g, o, pos);
    assert NodeOk(g.t, g.top, o);
    ListedByParent(g.t, g.top, g.t[o].parent, o);
    forall q {:trigger SpinePage(s, g, q)} | q in g.t && g.t[q].ht <= h ensures SpinePage(s, g, q) {
      if q != x {
        PageOkSpine(c, s, g, q);
      }
    }
  }

  // The position among the children of its half of the child that comes at position pos of all.
  function PosInHalf(c: Caps, pos: nat): nat {
    if pos < c.innerMax / 2 + 1 then pos else pos - (c.innerMax / 2 + 1)
  }

  // The number of children, x included, that stay in the old node.
  function Cut(c: Caps, pos: nat): nat {
    if pos <= c.innerMax / 2 then c.innerMax / 2 + 2 else c.innerMax / 2 + 1
  }

  // A full leaf with one row more is divided evenly, 8 and 8 in the program, and if that is not possible the left half
  // has one cell more; a full internal node with one child more so that each half has about half of the children. Of
  // the program's 5 children the old node keeps 3 if the new one is one of the first two, and 2 otherwise.
  lemma DivisionsEven(c: Caps, pos: nat)
    requires pos < c.innerMax + 2
    ensures c.LeftSplit() + c.RightSplit() == c.leafMax + 1 && c.RightSplit() <= c.LeftSplit() <= c.RightSplit() + 1
    ensures TOY_SQL_CAPS.LeftSplit() == TOY_SQL_CAPS.RightSplit() == 8
    ensures Cut(c, pos) >= c.innerMax / 2 + 1 && c.innerMax + 2 - Cut(c, pos) >= (c.innerMax + 1) / 2
    ensures c == TOY_SQL_CAPS ==> Cut(c, pos) == if pos <= 1 then 3 else 2
  {
  }

  lemma FitsLow(g: Model, ch: seq<nat>, x: nat, pos: nat, half: nat)
    requires Fits(g, ch, x, pos) && pos < half <= |ch|
    ensures Fits(g, Lower(ch, half), x, pos)
    ensures MaxBelow(g.t, g.top, x) < MaxBelow(g.t, g.top, ch[half - 1])
  {
  }

  lemma FitsHigh(g: Model, ch: seq<nat>, x: nat, pos: nat, half: nat)
    requires Fits(g, ch, x, pos) && 0 < half <= pos
    ensures Fits(g, Upper(ch, half), x, pos - half)
    ensures MaxBelow(g.t, g.top, ch[half - 1]) < MaxBelow(g.t, g.top, x)
  {
  }

  ghost predicate CanPlaceInHalf(c: Caps, s: seq<Page>, g: Model, o: nat, n: nat, h: nat, kids: seq<nat>, pos: nat) {
    && TreeOk(g.t, g.top) && SpineOk(s, g, h)
    && o in g.t && g.t[o].ht == h + 1 && n !in g.t
    && o < |s| && n < |s| && s[o].nodeType == INTERNAL && s[n].nodeType == INTERNAL
    && |kids| == c.innerMax + 2 && 0 < pos < |kids|
    && Fits(g, RemoveAt(kids, pos), kids[pos], pos)
    && g.t[kids[pos]].ht == h && kids[pos] < |s| <= FILE_PAGES_NUM
    && kids[pos] != o && kids[pos] != n
    && kids[pos] !in Upper(kids, pos + 1)
  }

  ghost predicate CanDivide(c: Caps, s: seq<Page>, g: Model, o: nat, n: nat, h: nat, kids: seq<nat>, pos: nat) {
    && CanHalve(c, s, g, o, n, h) && CanPlaceInHalf(c, s, g, o, n, h, kids, pos)
    && Children(s[o]) == RemoveAt(kids, pos) && KeyedUpTo(s[o], g, c.innerMax / 2)
  }

  lemma ReadyPlace(c: Caps, s: seq<Page>, g: Model, o: nat, n: nat, x: nat, pos: nat)
    requires SplitReady(c, s, g, o, n, x, pos)
    ensures CanDivide(c, s, g, o, n, g.t[o].ht - 1, g.t[o].kids, pos)
  {
    ReadyHalve(c, s, g, o, n, x, pos);
    LackingKeyed(c, s[o], g, o, pos);
    ListedByParent(g.t, g.top, o, x);
    assert NodeOk(g.t, g.top, x);
    if x in Upper(g.t[o].kids, pos + 1) {
      KidsAscend(g.t, g.top, o, pos, pos + 1 + IndexIn(Upper(g.t[o].kids, pos + 1), x));
    }
  }

  lemma PartsSpine(c: Caps, s0: seq<Page>, s: seq<Page>, g: Model, o: nat, n: nat, h: nat, ch: seq<nat>, half: nat)
    requires Parts(c, s0, s, g, o, n, h, ch, half) && SpineOk(s0, g, h) && o in g.t && g.t[o].ht == h + 1 && n !in g.t
    ensures SpineOk(s, g, h)
  {
    SpineFrame(s0, s, g, h);
  }

  // Where x = kids[pos] goes after the upper half has moved.
  lemma PartsPlace(c: Caps, s0: seq<Page>, s: seq<Page>, g: Model, o: nat, n: nat, h: nat, kids: seq<nat>, pos: nat)
    requires CanPlaceInHalf(c, s0, g, o, n, h, kids, pos)
    requires Parts(c, s0, s, g, o, n, h, RemoveAt(kids, pos), c.innerMax / 2 + 1)
    ensures TreeOk(g.t, g.top) && o in g.t && h < g.t[o].ht && o < |s| && n < |s| && |s| == |s0|
    ensures |kids| == c.innerMax + 2 && pos < |kids| && kids[pos] in g.t && kids[pos] < |s|
    ensures kids[pos] != o && kids[pos] != n && kids[pos] !in Upper(kids, pos + 1)
    ensures s[o].link in g.t && g.t[s[o].link].ht == h && SpineOk(s, g, h)
    ensures s[o].nodeType == INTERNAL && s[o].count < c.innerMax && s[n].count < c.innerMax
    ensures var half := c.innerMax / 2 + 1;
            && (MaxBelow(g.t, g.top, kids[pos]) < MaxBelow(g.t, g.top, s[o].link) <==> pos < half)
            && CanPlace(c, s, g, if pos < half then o else n, kids[pos], h, PosInHalf(c, pos))
  {
    var ch, half := RemoveAt(kids, pos), c.innerMax / 2 + 1;
    assert s[o].link == Children(s[o])[half - 1] == ch[half - 1];
    PartsSpine(c, s0, s, g, o, n, h, ch, half);
    if pos < half {
      FitsLow(g, ch, kids[pos], pos, half);
    } else {
      FitsHigh(g, ch, kids[pos], pos, half);
    }
  }

  // The store after the split: o has the first `cut` children, n the rest; x points to its new parent.
  ghost predicate Divided(c: Caps, s0: seq<Page>, s: seq<Page>, g: Model, o: nat, n: nat, h: nat,
                          kids: seq<nat>, x: nat, cut: nat)
  {
    && o < |s0| && n < |s0| && o != n && cut <= |kids|
    && |s| == |s0|
    && PartOk(c, s0[o], s[o], g, h, Lower(kids, cut))
    && PartOk(c, s0[n], s[n], g, h, Upper(kids, cut))
    && forall q | 0 <= q < |s| && q != o && q != n ::
         s[q] == if q in Upper(kids, cut) then s0[q].(parent := n)
                 else if q == x then s0[q].(parent := o) else s0[q]
  }

  lemma PlacedPart(c: Caps, was: Page, half: Page, page: Page, g: Model, h: nat, ch: seq<nat>, x: nat, pos: nat)
    requires PartOk(c, was, half, g, h, ch) && Placed(c, g, half, page, x, h, pos)
    ensures pos <= |ch| && PartOk(c, was, page, g, h, InsertAt(ch, pos, x))
  {
  }

  lemma PartsLow(c: Caps, s0: seq<Page>, s: seq<Page>, s': seq<Page>, g: Model,
                 o: nat, n: nat, h: nat, kids: seq<nat>, half: nat, pos: nat, page: Page)
    requires pos < half < |kids| && kids[pos] < |s|
    requires Parts(c, s0, s, g, o, n, h, RemoveAt(kids, pos), half)
    requires kids[pos] != o && kids[pos] != n && kids[pos] !in Upper(kids, half + 1)
    requires Placed(c, g, s[o], page, kids[pos], h, pos)
    requires s' == s[o := page][kids[pos] := s[kids[pos]].(parent := o)]
    ensures Divided(c, s0, s', g, o, n, h, kids, kids[pos], half + 1)
  {
    PlacedPart(c, s0[o], s[o], page, g, h, Lower(RemoveAt(kids, pos), half), kids[pos], pos);
    InsertBeforeCut(kids, pos, half);
  }

  lemma PartsHigh(c: Caps, s0: seq<Page>, s: seq<Page>, s': seq<Page>, g: Model,
                  o: nat, n: nat, h: nat, kids: seq<nat>, half: nat, pos: nat, page: Page)
    requires half <= pos < |kids| && kids[pos] < |s|
    requires Parts(c, s0, s, g, o, n, h, RemoveAt(kids, pos), half)
    requires kids[pos] != o && kids[pos] != n
    requires Placed(c, g, s[n], page, kids[pos], h, pos - half)
    requires s' == s[n := page][kids[pos] := s[kids[pos]].(parent := n)]
    ensures Divided(c, s0, s', g, o, n, h, kids, kids[pos], half)
  {
    PlacedPart(c, s0[n], s[n], page, g, h, Upper(RemoveAt(kids, pos), half), kids[pos], pos - half);
    InsertAfterCut(kids, pos, half);
  }

  lemma PartsPlaced(c: Caps, s0: seq<Page>, s: seq<Page>, s': seq<Page>, g: Model,
                    o: nat, n: nat, h: nat, kids: seq<nat>, x: nat, pos: nat, dest: nat, page: Page)
    requires |kids| == c.innerMax + 2 && pos < |kids| && kids[pos] == x < |s|
    requires x != o && x != n && x !in Upper(kids, pos + 1)
    requires Parts(c, s0, s, g, o, n, h, RemoveAt(kids, pos), c.innerMax / 2 + 1)
    requires dest == if pos < c.innerMax / 2 + 1 then o else n
    requires Placed(c, g, s[dest], page, x, h, PosInHalf(c, pos))
    requires s' == s[dest := page][x := s[x].(parent := dest)]
    ensures Divided(c, s0, s', g, o, n, h, kids, x, Cut(c, pos))
  {
    var half := c.innerMax / 2 + 1;
    if pos < half {
      assert Cut(c, pos) == half + 1 && PosInHalf(c, pos) == pos;
      UpperSubset(kids, pos + 1, half + 1);
      PartsLow(c, s0, s, s', g, o, n, h, kids, half, pos, page);
    } else {
      assert Cut(c, pos) == half && PosInHalf(c, pos) == pos - half;
      PartsHigh(c, s0, s, s', g, o, n, h, kids, half, pos, page);
    }
  }

  // ------------------------------------------------------------------
  // The tree after the split

  ghost function SplitModel(g: Model, o: nat, n: nat, cut: nat): Model
    requires o in g.t && g.t[o].parent in g.t && o in g.t[g.t[o].parent].kids
    requires 0 < cut <= |g.t[o].kids| && g.t[o].kids[cut - 1] in g.t
  {
    g.(t := Split(g.t, o, n, g.t[g.t[o].kids[cut - 1]].hi, cut))
  }

  lemma CanSplitKids(g: Model, o: nat, n: nat, cut: nat)
    requires TreeOk(g.t, g.top) && o in g.t && o != 0 && n !in g.t
    requires 0 < cut < |g.t[o].kids|
    ensures g.t[o].kids[cut - 1] in g.t
    ensures CanSplit(g.t, g.top, o, n, g.t[g.t[o].kids[cut - 1]].hi, cut)
    ensures g.t[o].parent in g.t && o in g.t[g.t[o].parent].kids
    ensures TreeOk(SplitModel(g, o, n, cut).t, g.top)
  {
    assert NodeOk(g.t, g.top, o);
    KidsAscend(g.t, g.top, o, cut - 1, cut);
    KidRange(g.t, g.top, o, cut - 1);
    KidRange(g.t, g.top, o, cut);
    assert NodeOk(g.t, g.top, g.t[o].kids[cut]);
    if g.t[o].hi == INF {
      var last := |g.t[o].kids| - 1;
      KidRange(g.t, g.top, o, last);
      assert KidOk(g.t, o, last);
      assert NodeOk(g.t, g.top, g.t[o].kids[last]);
      if cut < last { KidsAscend(g.t, g.top, o, cut, last); }
    }
    SplitOk(g.t, g.top, o, n, g.t[g.t[o].kids[cut - 1]].hi, cut);
  }

  // A page other than those of the split node and its parent is as good for the tree after the split.
  lemma BodyKept(c: Caps, page: Page, g: Model, o: nat, n: nat, m: int, cut: nat, q: nat)
    requires CanSplit(g.t, g.top, o, n, m, cut) && cut <= |g.t[o].kids|
    requires g.t[o].parent in g.t && o in g.t[g.t[o].parent].kids
    requires q != o && q != g.t[o].parent && BodyOk(c, page, g, q)
    ensures BodyOk(c, page, g.(t := Split(g.t, o, n, m, cut)), q)
  {
    var t' := Split(g.t, o, n, m, cut);
    ListedByParent(g.t, g.top, g.t[o].parent, o);
    if g.t[q].ht > 0 {
      forall j | 0 <= j < page.count
        ensures t'[q].kids[j] in t' && page.slots[j].key == t'[t'[q].kids[j]].hi
      {
        if t'[q].kids[j] == o {
          ListedByParent(g.t, g.top, q, o);
        }
      }
    }
  }

  lemma PartBody(c: Caps, was: Page, page: Page, g: Model, o: nat, n: nat, cut: nat, q: nat)
    requires TreeOk(g.t, g.top) && o in g.t && o != 0 && n !in g.t && g.t[o].ht > 0
    requires 0 < cut < |g.t[o].kids| && g.t[o].kids[cut - 1] in g.t
    requires g.t[o].parent in g.t && o in g.t[g.t[o].parent].kids
    requires q == o || q == n
    requires PartOk(c, was, page, g, g.t[o].ht - 1, if q == o then Lower(g.t[o].kids, cut) else Upper(g.t[o].kids, cut))
    requires was.nodeType == INTERNAL && !was.isRoot
    ensures BodyOk(c, page, SplitModel(g, o, n, cut), q)
  {
    var t' := SplitModel(g, o, n, cut).t;
    assert t'[q].kids == Children(page);
    forall j | 0 <= j < page.count
      ensures t'[q].kids[j] in t' && page.slots[j].key == t'[t'[q].kids[j]].hi
    {
      var i := if q == o then j else cut + j;
      assert g.t[o].kids[i] == Children(page)[j];
      KidAfterSplit(g, o, n, cut, i);
      KidsAscend(g.t, g.top, o, i, i + 1);
    }
  }

  // A child of the split node keeps its range.
  lemma KidAfterSplit(g: Model, o: nat, n: nat, cut: nat, i: nat)
    requires TreeOk(g.t, g.top) && o in g.t && o != 0 && n !in g.t && g.t[o].ht > 0
    requires 0 < cut < |g.t[o].kids| && g.t[o].kids[cut - 1] in g.t && i < |g.t[o].kids|
    requires g.t[o].parent in g.t && o in g.t[g.t[o].parent].kids
    ensures var k, t' := g.t[o].kids[i], SplitModel(g, o, n, cut).t;
            k in g.t && k in t' && t'[k].hi == g.t[k].hi
  {
    ListedByParent(g.t, g.top, o, g.t[o].kids[i]);
  }

  lemma ReparentedBody(c: Caps, page: Page, g: Model, q: nat, p: nat)
    requires BodyOk(c, page, g, q)
    ensures BodyOk(c, page.(parent := p), g, q)
  {
  }

  lemma DividedOther(c: Caps, was: Page, page: Page, g: Model, o: nat, n: nat, cut: nat, q: nat, x: nat)
    requires TreeOk(g.t, g.top) && o in g.t && o != 0 && n !in g.t && g.t[o].ht > 0
    requires 0 < cut < |g.t[o].kids| && g.t[o].kids[cut - 1] in g.t
    requires g.t[o].parent in g.t && o in g.t[g.t[o].parent].kids
    requires q != o && q != g.t[o].parent && BodyOk(c, was, g, q)
    requires q != 0 && q != x ==> was.parent == g.t[q].parent
    requires x in g.t[o].kids
    requires page == if q in Upper(g.t[o].kids, cut) then was.(parent := n)
                     else if q == x then was.(parent := o) else was
    ensures BodyOk(c, page, SplitModel(g, o, n, cut), q)
    ensures q != 0 ==> page.parent == SplitModel(g, o, n, cut).t[q].parent
  {
    CanSplitKids(g, o, n, cut);
    BodyKept(c, was, g, o, n, g.t[g.t[o].kids[cut - 1]].hi, cut, q);
    ReparentedBody(c, was, SplitModel(g, o, n, cut), q, page.parent);
    ListedByParent(g.t, g.top, o, x);
  }

  // All pages but the parent are as the tree says after the split, the new node's parent pointer aside.
  ghost predicate AsSplitModel(c: Caps, s: seq<Page>, g: Model, o: nat, n: nat, cut: nat) {
    && o in g.t && g.t[o].parent in g.t && o in g.t[g.t[o].parent].kids
    && 0 < cut <= |g.t[o].kids| && g.t[o].kids[cut - 1] in g.t && n < |s|
    && var g' := SplitModel(g, o, n, cut);
       && TreeOk(g'.t, g'.top)
       && BodyOk(c, s[n], g', n)
       && forall q {:trigger PageOk(c, s, g', q)} | q in g.t && q != g.t[o].parent :: PageOk(c, s, g', q)
  }

  lemma DividedPages(c: Caps, s0: seq<Page>, s: seq<Page>, g: Model, o: nat, n: nat, x: nat, pos: nat)
    requires SplitReady(c, s0, g, o, n, x, pos)
    requires Divided(c, s0, s, g, o, n, g.t[o].ht - 1, g.t[o].kids, x, Cut(c, pos))
    ensures AsSplitModel(c, s, g, o, n, Cut(c, pos))
  {
    var cut := Cut(c, pos);
    CanSplitKids(g, o, n, cut);
    var g' := SplitModel(g, o, n, cut);
    PartBody(c, s0[n], s[n], g, o, n, cut, n);
    forall q {:trigger PageOk(c, s, g', q)} | q in g.t && q != g.t[o].parent ensures PageOk(c, s, g', q) {
      if q == o {
        PartBody(c, s0[o], s[o], g, o, n, cut, o);
      } else {
        assert q != x ==> PageOk(c, s0, g, q);
        DividedOther(c, s0[q], s[q], g, o, n, cut, q, x);
      }
    }
  }
}
