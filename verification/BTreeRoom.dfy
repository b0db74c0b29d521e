/** How many pages an insertion allocates. */
module BTreeRoom {
  import opened Sequences
  import opened BTreeShape
  import opened BTreePages

  // Pages allocated when internal node p gains a child.
  ghost function PagesToGain(g: Model, innerMax: nat, p: nat): nat
    requires TreeOk(g.t, g.top) && p in g.t
    decreases g.t[0].ht - g.t[p].ht
  {
    assert NodeOk(g.t, g.top, p);
    if |g.t[p].kids| <= innerMax then 0
    else if p == 0 then 2
    else
      var r := g.t[p].parent;
      assert NodeOk(g.t, g.top, r);
      ListedByParent(g.t, g.top, r, p);
      1 + PagesToGain(g, innerMax, r)
  }

  // Pages allocated to bring internal node p, which may hold one child too many, back to capacity.
  ghost function PagesToSettle(g: Model, innerMax: nat, p: nat): nat
    requires TreeOk(g.t, g.top) && p in g.t
  {
    assert NodeOk(g.t, g.top, p);
    if |g.t[p].kids| <= innerMax + 1 then 0
    else if p == 0 then 2
    else 1 + PagesToGain(g, innerMax, g.t[p].parent)
  }

  // Pages allocated when a row goes into leaf p.
  ghost function PagesToInsert(c: Caps, s: seq<Page>, g: Model, p: nat): nat
    requires TreeOk(g.t, g.top) && p in g.t && p < |s|
  {
    assert NodeOk(g.t, g.top, p);
    if s[p].count < c.leafMax then 0
    else if p == 0 then 2
    else 1 + PagesToGain(g, c.innerMax, g.t[p].parent)
  }

  // The nodes above a split are not touched by it.
  lemma {:induction false} GainAbove(g: Model, g': Model, innerMax: nat, a: nat, h: nat)
    requires TreeOk(g.t, g.top) && TreeOk(g'.t, g'.top) && a in g.t && g.t[a].ht > h
    requires forall q | q in g.t && g.t[q].ht > h :: q in g'.t && g'.t[q] == g.t[q]
    ensures a in g'.t && PagesToGain(g', innerMax, a) == PagesToGain(g, innerMax, a)
    decreases g.t[0].ht - g.t[a].ht
  {
    assert NodeOk(g.t, g.top, a);
    if a != 0 {
      ListedByParent(g.t, g.top, g.t[a].parent, a);
      assert NodeOk(g.t, g.top, g.t[a].parent);
      GainAbove(g, g', innerMax, g.t[a].parent, h);
    }
  }

  // After node o split, its parent r holds one child more: settling r takes what gaining a child took before.
  lemma SettleAfterSplit(g: Model, o: nat, n: nat, m: int, cut: nat, innerMax: nat)
    requires CanSplit(g.t, g.top, o, n, m, cut)
    requires g.t[o].parent in g.t && o in g.t[g.t[o].parent].kids && cut <= |g.t[o].kids|
    ensures var g', r := g.(t := Split(g.t, o, n, m, cut)), g.t[o].parent;
            TreeOk(g'.t, g'.top) && PagesToSettle(g', innerMax, r) == PagesToGain(g, innerMax, r)
  {
    var g', r := g.(t := Split(g.t, o, n, m, cut)), g.t[o].parent;
    SplitOk(g.t, g.top, o, n, m, cut);
    assert NodeOk(g.t, g.top, r);
    ListedByParent(g.t, g.top, r, o);
    if r != 0 {
      var a := g.t[r].parent;
      ListedByParent(g.t, g.top, a, r);
      forall q | q in g.t && g.t[q].ht > g.t[r].ht ensures q in g'.t && g'.t[q] == g.t[q] {
        if q in Upper(g.t[o].kids, cut) { ListedByParent(g.t, g.top, o, q); }
      }
      GainAbove(g, g', innerMax, a, g.t[r].ht);
    }
  }
}
