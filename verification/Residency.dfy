/** How many pages the cache must hold for the tree's raw page pointers to stay live. */
module Residency {
  import opened Sequences
  import opened Lru

  // Pages asked for one after the other, with pages `held` still pointed at after each of them.
  ghost predicate AllHeld(maxPages: nat, before: seq<nat>, held: seq<nat>, later: seq<nat>) {
    forall k, i | 0 <= k <= |later| && 0 <= i < |held| ::
      held[i] in Run(maxPages, before + held + later[..k])
  }

  lemma DistinctPages(s: seq<nat>)
    requires Distinct(s)
    ensures |PagesOf(s)| == |s|
  {
    DistinctSize(s, PagesOf(s));
  }

  // A cache as large as the number of pages asked for keeps them all.
  lemma HeldIfRoom(maxPages: nat, before: seq<nat>, held: seq<nat>, later: seq<nat>)
    requires |PagesOf(held + later)| <= maxPages || |PagesOf(held + later)| == 1
    ensures AllHeld(maxPages, before, held, later)
  {
    forall k, i | 0 <= k <= |later| && 0 <= i < |held|
      ensures held[i] in Run(maxPages, before + held + later[..k])
    {
      var rest := held[i + 1..] + later[..k];
      assert before + held[..i] + [held[i]] + rest == before + held + later[..k];
      var all, others := PagesOf(held + later), PagesOf(rest) - {held[i]};
      assert held[i] in held + later;
      assert others <= all - {held[i]} by {
        assert forall x | x in rest :: x in held + later;
      }
      SubsetSize(others, all - {held[i]});
      assert |all - {held[i]}| == |all| - 1;
      assert |others| == 0 ==> others == {};
      assert others == {} ==> PagesOf(rest) <= {held[i]};
      Resident(maxPages, before + held[..i], held[i], rest);
    }
  }

  // The pages pointed at stay live exactly if the cache is as large as the number of pages asked for meanwhile, as long
  // as the first of them is not asked for again.
  lemma HeldIff(maxPages: nat, before: seq<nat>, held: seq<nat>, later: seq<nat>)
    requires held != [] && held[0] !in held[1..] + later
    ensures AllHeld(maxPages, before, held, later) <==> |PagesOf(held + later)| <= maxPages || |held + later| == 1
  {
    var n, rest := held[0], held[1..] + later;
    assert held + later == [n] + rest;
    assert PagesOf(held + later) == {n} + PagesOf(rest);
    assert before + [n] + rest == before + held + later[..|later|];
    ResidentIff(maxPages, before, n, rest);
    if rest == [] {
      assert PagesOf(held + later) == {n};
    }
    if |PagesOf(held + later)| <= maxPages || rest == [] {
      HeldIfRoom(maxPages, before, held, later);
    }
  }

  // Going on with pages asked for already changes nothing.
  lemma HeldOnIff(maxPages: nat, before: seq<nat>, held: seq<nat>, later: seq<nat>, more: seq<nat>)
    requires held != [] && held[0] !in held[1..] + later && PagesOf(more) <= PagesOf(held + later)
    ensures AllHeld(maxPages, before, held, later + more)
            <==> |PagesOf(held + later)| <= maxPages || |held + later| == 1
  {
    HeldIff(maxPages, before, held, later);
    if |held + later| == 1 {
      assert PagesOf(held + later) == {held[0]};
    }
    if |PagesOf(held + later)| <= maxPages || |held + later| == 1 {
      assert PagesOf(held + (later + more)) == PagesOf(held + later) by {
        assert forall x | x in held + (later + more) :: x in held + later || x in more;
        assert forall x | x in held + later :: x in held + (later + more);
        assert forall x | x in more :: x in PagesOf(more);
      }
      HeldIfRoom(maxPages, before, held, later + more);
    }
    if AllHeld(maxPages, before, held, later + more) {
      forall k, i | 0 <= k <= |later| && 0 <= i < |held|
        ensures held[i] in Run(maxPages, before + held + later[..k])
      {
        assert (later + more)[..k] == later[..k];
      }
    }
  }

  // Growing the root over an internal one: the root, the right half and the left half are pointed at until the end. In
  // between each child of the left half is asked for, and for its largest key the last of them once more, and then
  // the last child's last child, and so on down to a leaf.
  lemma RootGrowthWindow(maxPages: nat, before: seq<nat>, root: nat, right: nat, left: nat, kids: seq<nat>,
                         spine: seq<nat>)
    requires kids != [] && Distinct([root, right, left] + kids + spine)
    ensures AllHeld(maxPages, before, [root, right, left], kids + [kids[|kids| - 1]] + spine)
            <==> maxPages >= |kids| + 3 + |spine|
  {
    var held, last := [root, right, left], kids[|kids| - 1];
    var later, all := kids + [last] + spine, held + kids + spine;
    assert all[0] == root;
    assert forall x | x in held[1..] + later :: x in all[1..] by {
      assert all[1..] == held[1..] + kids + spine;
    }
    assert PagesOf(held + later) == PagesOf(all) by {
      assert forall x :: x in held + later <==> x in held || x in kids || x == last || x in spine;
      assert forall x :: x in all <==> x in held || x in kids || x in spine;
    }
    DistinctPages(all);
    HeldIff(maxPages, before, held, later);
  }

  // Splitting the root leaf: it becomes the left half below itself, beside the new leaf.
  lemma RootLeafWindow(maxPages: nat, before: seq<nat>, root: nat, right: nat, left: nat)
    requires root != right && root != left && right != left
    ensures AllHeld(maxPages, before, [root, right, left], []) <==> maxPages >= 3
  {
    var held := [root, right, left];
    assert held + [] == held && held[1..] + [] == [right, left];
    assert PagesOf(held) == {root, right, left};
    HeldIff(maxPages, before, held, []);
  }

  // Splitting a leaf below an internal node with room: the leaf and the new page are pointed at together, then
  // the parent while the new page and the parent's rightmost leaf are asked for.
  lemma LeafSplitWindow(maxPages: nat, before: seq<nat>, leaf: nat, added: nat, parent: nat, right: nat)
    requires leaf != added && parent != added && right != added && right != parent
    ensures AllHeld(maxPages, before, [leaf], [added])
            && AllHeld(maxPages, before + [leaf, added, parent], [parent], [added, right])
            <==> maxPages >= 3
  {
    assert [leaf] + [added] == [leaf, added] && [parent] + [added, right] == [parent, added, right];
    assert PagesOf([leaf, added]) == {leaf, added} && PagesOf([parent, added, right]) == {parent, added, right};
    HeldIff(maxPages, before, [leaf], [added]);
    HeldIff(maxPages, before + [leaf, added, parent], [parent], [added, right]);
  }

  lemma InnerSplitPages(o: nat, x: nat, r: nat, n: nat, c1: nat, c2: nat, c3: nat)
    requires Distinct([o, x, r, n, c1, c2, c3])
    ensures |PagesOf([o, x, r, n] + [c3, n, c3, c2, n, c2, c3, c1])| == 7
    ensures o !in [x, r, n] + [c3, n, c3, c2, n, c2, c3, c1]
  {
    var all := [o, x, r, n, c1, c2, c3];
    assert all[0] == o && all[1] == x && all[2] == r && all[3] == n && all[4] == c1 && all[5] == c2 && all[6] == c3;
    assert PagesOf([o, x, r, n] + [c3, n, c3, c2, n, c2, c3, c1]) == {o, x, r, n, c1, c2, c3} == PagesOf(all);
    DistinctPages(all);
  }

  // Splitting an internal node with 3 keys over leaves c0 to c3, below a parent with room: the node o, the pending
  // child x, the parent r and the new node n are pointed at while c3 and c2 move to n, and until x is in `half`, which
  // is o or n and has the right child c.
  lemma InnerSplitWindow(maxPages: nat, before: seq<nat>, o: nat, x: nat, r: nat, n: nat, c1: nat, c2: nat, c3: nat,
                         half: nat, c: nat)
    requires Distinct([o, x, r, n, c1, c2, c3]) && (half == o || half == n) && (c == c1 || c == c3)
    ensures AllHeld(maxPages, before, [o, x, r, n], [c3, n, c3, c2, n, c2, c3, c1] + [half, x, c, c1])
            <==> maxPages >= 7
  {
    var held, later, more := [o, x, r, n], [c3, n, c3, c2, n, c2, c3, c1], [half, x, c, c1];
    InnerSplitPages(o, x, r, n, c1, c2, c3);
    assert held[1..] == [x, r, n];
    assert PagesOf(more) <= PagesOf(held + later) by {
      assert PagesOf(more) == {half, x, c, c1};
    }
    HeldOnIff(maxPages, before, held, later, more);
  }
}
