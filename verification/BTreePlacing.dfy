/** Value-level lemmas about putting a child into an internal page that has room. */
module BTreePlacing {
  import opened Sequences
  import opened BTreeShape
  import opened BTreePages

  lemma PlacedLast(c: Caps, g: Model, was: Page, page: Page, child: nat, h: nat, pos: nat)
    requires Sized(c, was) && Sized(c, page)
    requires was.count < c.innerMax && was.link != INVALID_PAGE_NUM && child < INVALID_PAGE_NUM
    requires Keyed(c, was, g, h) && child in g.t && g.t[child].ht == h
    requires Fits(g, Children(was), child, pos)
    requires was.link in g.t && MaxBelow(g.t, g.top, was.link) < MaxBelow(g.t, g.top, child)
    requires page == was.(count := was.count + 1, link := child, slots := page.slots)
    requires page.slots[was.count].child == was.link
    requires page.slots[was.count].key == MaxBelow(g.t, g.top, was.link)
    requires forall j | 0 <= j < was.count :: page.slots[j] == was.slots[j]
    ensures Placed(c, g, was, page, child, h, pos)
  {
    assert Children(was)[was.count] == was.link;
    assert pos == |Children(was)|;
    PlacedKeyed(c, g, was, page, child, h, pos);
  }

  // A child not above the right child belongs where the binary search puts it.
  lemma PlacePosition(c: Caps, g: Model, was: Page, child: nat, childMax: Key, index: nat, h: nat, pos: nat)
    requires Sized(c, was) && was.count < c.innerMax && was.link != INVALID_PAGE_NUM
    requires Keyed(c, was, g, h) && Fits(g, Children(was), child, pos)
    requires childMax == MaxBelow(g.t, g.top, child)
    requires was.link in g.t && childMax <= MaxBelow(g.t, g.top, was.link)
    requires FirstNotBelow(was, childMax, index)
    ensures pos == index
  {
    var ch := Children(was);
    assert ch[was.count] == was.link;
    assert pos < was.count ==> was.slots[pos].key == MaxBelow(g.t, g.top, ch[pos]);
    assert index < was.count ==> was.slots[index].key == MaxBelow(g.t, g.top, ch[index]);
  }

  lemma PlacedBefore(c: Caps, g: Model, was: Page, page: Page, child: nat, childMax: Key, h: nat, pos: nat)
    requires Sized(c, was) && Sized(c, page)
    requires was.count < c.innerMax && was.link != INVALID_PAGE_NUM
    requires Keyed(c, was, g, h) && child in g.t && g.t[child].ht == h
    requires Fits(g, Children(was), child, pos) && pos <= was.count
    requires childMax == MaxBelow(g.t, g.top, child)
    requires page == was.(count := was.count + 1, slots := page.slots)
    requires forall j {:trigger page.slots[j]} | 0 <= j < page.count ::
               page.slots[j] == if j < pos then was.slots[j]
                                else if j == pos then Slot(child, childMax)
                                else was.slots[j - 1]
    ensures Placed(c, g, was, page, child, h, pos)
  {
    forall j | 0 <= j < page.count
      ensures var x := InsertAt(Children(was), pos, child)[j];
              x in g.t && page.slots[j].child == x && page.slots[j].key == MaxBelow(g.t, g.top, x)
    {
      var x := InsertAt(Children(was), pos, child)[j];
      assert page.slots[j] == if j < pos then was.slots[j]
                              else if j == pos then Slot(child, childMax) else was.slots[j - 1];
      if j != pos {
        assert x == Children(was)[if j < pos then j else j - 1];
      }
    }
    PlacedKeyed(c, g, was, page, child, h, pos);
  }

  // On a page in order, the code puts the child where it belongs.
  lemma PlacedWhereItFits(c: Caps, g: Model, was: Page, page: Page, child: nat, childMax: Key, rightMax: Key,
                          index: nat, h: nat, pos: nat)
    requires Sized(c, was) && Sized(c, page)
    requires was.count < c.innerMax && was.link != INVALID_PAGE_NUM && child < INVALID_PAGE_NUM
    requires Keyed(c, was, g, h) && Fits(g, Children(was), child, pos) && g.t[child].ht == h
    requires childMax == MaxBelow(g.t, g.top, child)
    requires was.link in g.t && rightMax == MaxBelow(g.t, g.top, was.link)
    requires FirstNotBelow(was, childMax, index)
    requires PlacedAt(was, page, child, childMax, rightMax, index)
    ensures Placed(c, g, was, page, child, h, pos)
  {
    if childMax > rightMax {
      PlacedLast(c, g, was, page, child, h, pos);
    } else {
      PlacePosition(c, g, was, child, childMax, index, h, pos);
      PlacedBefore(c, g, was, page, child, childMax, h, pos);
    }
  }

  lemma PlacedKeyed(c: Caps, g: Model, was: Page, page: Page, child: nat, h: nat, pos: nat)
    requires Sized(c, was) && Sized(c, page)
    requires was.count < c.innerMax && was.link != INVALID_PAGE_NUM && page.link != INVALID_PAGE_NUM
    requires page == was.(count := was.count + 1, link := page.link, slots := page.slots)
    requires Keyed(c, was, g, h) && child in g.t && g.t[child].ht == h
    requires Fits(g, Children(was), child, pos)
    requires page.link == InsertAt(Children(was), pos, child)[page.count]
    requires forall j | 0 <= j < page.count ::
               var x := InsertAt(Children(was), pos, child)[j];
               x in g.t && page.slots[j].child == x && page.slots[j].key == MaxBelow(g.t, g.top, x)
    ensures Placed(c, g, was, page, child, h, pos)
  {
    var ch, ch' := Children(was), InsertAt(Children(was), pos, child);
    assert Children(page) == ch';
    forall j | 0 <= j < |ch'| ensures ch'[j] in g.t && g.t[ch'[j]].ht == h {
      assert j != pos ==> ch'[j] == ch[if j < pos then j else j - 1];
    }
    forall i, j | 0 <= i < j < |ch'|
      ensures MaxBelow(g.t, g.top, ch'[i]) < MaxBelow(g.t, g.top, ch'[j])
    {
      assert i != pos ==> ch'[i] == ch[if i < pos then i else i - 1];
      assert j != pos ==> ch'[j] == ch[if j < pos then j else j - 1];
    }
  }

  // Following right spines ignores parent pointers.
  lemma SpineFrame(s: seq<Page>, s': seq<Page>, g: Model, h: nat)
    requires SpineOk(s, g, h) && |s| <= |s'|
    requires forall q | q in g.t && g.t[q].ht <= h && q < |s| :: s'[q] == s[q].(parent := s'[q].parent)
    ensures SpineOk(s', g, h)
  {
    forall q {:trigger SpinePage(s', g, q)} | q in g.t && g.t[q].ht <= h ensures SpinePage(s', g, q) {
      assert SpinePage(s, g, q);
    }
  }

  // The first child of an empty page becomes its right child.
  lemma PlacedAlone(c: Caps, s: seq<Page>, g: Model, p: nat, x: nat, h: nat, pos: nat)
    requires CanPlace(c, s, g, p, x, h, pos) && s[p].link == INVALID_PAGE_NUM
    ensures Placed(c, g, s[p], s[p].(link := x), x, h, pos)
  {
    assert Children(s[p]) == [] && Children(s[p].(link := x)) == [x];
  }
}
