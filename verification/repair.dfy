/** The two repair procedures, _push_down and _push_up, and the facts about
    single swaps they are built from. Apart from push_up's one comparison
    with the parent, both loops use a selector fixed once: every move spans
    two levels, so the level parity never changes. Both swap only on a
    strict improvement.

    The order is tracked in its global form (see MinMaxOrder). push_down
    keeps "every pair whose ancestor is at least lo, other than slot i, is
    ordered"; push_up keeps the Climbing predicate below. */
module Repair {
  import opened IndexMath
  import opened MinMaxOrder
  import opened Selector
  import opened HeapState

  // ---------------------------------------------------------------------
  // _push_down

  /** The child step: the strictly better child m takes slot i's record and
      slot i keeps nothing to repair except below itself. */
  lemma ChildStep<K>(h: seq<Entry<K>>, lo: nat, i: nat, m: nat)
    requires lo <= i && 2 * i + 1 <= m <= 2 * i + 2 && m < |h|
    requires OrderedFrom(h, lo, i)
    requires !Dom(IsMinLevel(i), h[i].prio, h[m].prio)
    ensures OrderedFrom(Exchange(h, i, m), lo, i)
  {
    var h' := Exchange(h, i, m);
    ChildFacts(i, m);
    forall u: nat, d: nat | d < |h'| && Anc(u, d) && lo <= u && u != i
      ensures Ordered(h', u, d)
    {
      if u == m {
        assert Ordered(h, m, d);
      } else if d == m {
        AncViaParent(u, m);
        assert Ordered(h, u, i);
      } else if d == i {
        AncTrans(u, i, m);
        assert Ordered(h, u, m);
      } else {
        assert Ordered(h, u, d);
      }
    }
  }

  /** The grandchild step: the best grandchild g, strictly better than slot
      i, trades places with it; afterwards only g's own subtree may be out
      of order. */
  lemma GrandchildStep<K>(h: seq<Entry<K>>, lo: nat, i: nat, g: nat)
    requires lo <= i && 4 * i + 3 <= g <= 4 * i + 6 && g < |h|
    requires OrderedFrom(h, lo, i)
    requires forall c :: 2 * i + 1 <= c <= 2 * i + 2 && c < |h| ==>
               Dom(IsMinLevel(i), h[i].prio, h[c].prio)
    requires forall c :: 4 * i + 3 <= c <= 4 * i + 6 && c < |h| ==>
               Dom(IsMinLevel(i), h[g].prio, h[c].prio)
    requires !Dom(IsMinLevel(i), h[i].prio, h[g].prio)
    ensures OrderedFrom(Exchange(h, i, g), lo, g)
  {
    var h' := Exchange(h, i, g);
    GrandchildFacts(i, g);
    forall u: nat, d: nat | d < |h'| && Anc(u, d) && lo <= u && u != g
      ensures Ordered(h', u, d)
    {
      if u == i {
        if d == g || 2 * i + 1 <= d <= 2 * i + 2 || 4 * i + 3 <= d <= 4 * i + 6 {
        } else {
          DeepDescendant(i, d);
          var g' :| 4 * i + 3 <= g' <= 4 * i + 6 && Anc(g', d);
          GrandchildFacts(i, g');
          assert Ordered(h, g', d);
        }
      } else if d == i {
        AncTrans(u, i, g);
        assert Ordered(h, u, g);
      } else if d == g {
        if u == Parent(g) {
          ChildFacts(i, u);
        } else {
          AncViaParent(u, g);
          AncViaParent(u, Parent(g) as nat);
          assert Ordered(h, u, i);
        }
      } else {
        assert Ordered(h, u, d);
      }
    }
  }

  /** The loop exit: slot i beats none of its children and grandchildren,
      so nothing is left out of order. */
  lemma PushDownDone<K>(h: seq<Entry<K>>, lo: nat, i: nat)
    requires lo <= i < |h|
    requires OrderedFrom(h, lo, i)
    requires forall c :: 2 * i + 1 <= c <= 2 * i + 2 && c < |h| ==>
               Dom(IsMinLevel(i), h[i].prio, h[c].prio)
    requires forall c :: 4 * i + 3 <= c <= 4 * i + 6 && c < |h| ==>
               Dom(IsMinLevel(i), h[i].prio, h[c].prio)
    ensures OrderedFrom(h, lo, -1)
  {
    forall u: nat, d: nat | d < |h| && Anc(u, d) && lo <= u
      ensures Ordered(h, u, d)
    {
      if u == i {
        if 2 * i + 1 <= d <= 2 * i + 2 {
          ChildFacts(i, d);
        } else if 4 * i + 3 <= d <= 4 * i + 6 {
        } else {
          DeepDescendant(i, d);
          var g :| 4 * i + 3 <= g <= 4 * i + 6 && Anc(g, d);
          GrandchildFacts(i, g);
          assert Ordered(h, g, d);
        }
      }
    }
  }

  /** In an ordered array slot i dominates its children and grandchildren,
      so no selector over them can strictly beat it. */
  lemma DominatesBelow<K>(h: seq<Entry<K>>, lo: nat, i: nat)
    requires OrderedFrom(h, lo, -1) && lo <= i < |h|
    ensures forall c :: 2 * i + 1 <= c <= 2 * i + 2 && c < |h| ==>
              Dom(IsMinLevel(i), h[i].prio, h[c].prio)
    ensures forall c :: 4 * i + 3 <= c <= 4 * i + 6 && c < |h| ==>
              Dom(IsMinLevel(i), h[i].prio, h[c].prio)
  {
    forall c | 2 * i + 1 <= c <= 2 * i + 2 && c < |h|
      ensures Dom(IsMinLevel(i), h[i].prio, h[c].prio)
    {
      ChildFacts(i, c);
      assert Ordered(h, i, c);
    }
    forall c | 4 * i + 3 <= c <= 4 * i + 6 && c < |h|
      ensures Dom(IsMinLevel(i), h[i].prio, h[c].prio)
    {
      GrandchildFacts(i, c);
      assert Ordered(h, i, c);
    }
  }

  /** The first half of a _push_down iteration: slot i becomes the
      selector's pick among itself and its children, swapping only when a
      child is strictly better. */
  method FixChildren<K>(s: HeapDict<K>, i: nat, minLevel: bool, ghost lo: nat) returns (t: HeapDict<K>)
    requires Linked(s) && lo <= i < |s.heap| && IsMinLevel(i) == minLevel
    requires OrderedFrom(s.heap, lo, i)
    ensures Linked(t) && Items(t) == Items(s)
    ensures multiset(t.heap) == multiset(s.heap) && |t.heap| == |s.heap|
    ensures OrderedFrom(t.heap, lo, i)
    ensures forall c :: 2 * i + 1 <= c <= 2 * i + 2 && c < |t.heap| ==>
              Dom(IsMinLevel(i), t.heap[i].prio, t.heap[c].prio)
    ensures OrderedFrom(s.heap, lo, -1) ==> t == s
  {
    if OrderedFrom(s.heap, lo, -1) {
      DominatesBelow(s.heap, lo, i);
    }
    var shouldBeParent := Select(s.heap, minLevel, WithChildren(|s.heap|, i));
    if shouldBeParent != i {
      ChildStep(s.heap, lo, i, shouldBeParent);
      t := Swap(s, i, shouldBeParent);
    } else {
      t := s;
    }
  }

  /** One iteration of the _push_down loop at slot i: fix i against its
      children, then either stop or swap i with the grandchild the selector
      picks and continue from there. The selector is the one chosen from
      the level the loop started on, which every visited slot shares. */
  method PushDownStep<K>(s: HeapDict<K>, i: nat, minLevel: bool, ghost lo: nat) returns (t: HeapDict<K>, next: nat, done: bool)
    requires Linked(s) && lo <= i < |s.heap| && IsMinLevel(i) == minLevel
    requires OrderedFrom(s.heap, lo, i)
    ensures Linked(t) && Items(t) == Items(s)
    ensures multiset(t.heap) == multiset(s.heap) && |t.heap| == |s.heap|
    ensures done ==> OrderedFrom(t.heap, lo, -1)
    ensures !done ==> 4 * i + 3 <= next <= 4 * i + 6 && next < |t.heap|
    ensures !done ==> IsMinLevel(next) == IsMinLevel(i) && OrderedFrom(t.heap, lo, next)
    ensures OrderedFrom(s.heap, lo, -1) ==> done && t == s
  {
    t := FixChildren(s, i, minLevel, lo);
    if OrderedFrom(s.heap, lo, -1) {
      DominatesBelow(t.heap, lo, i);
    }
    var shouldBeGrandparent := Select(t.heap, minLevel, WithGrandchildren(|t.heap|, i));
    if shouldBeGrandparent == i {
      PushDownDone(t.heap, lo, i);
      return t, i, true;
    }
    GrandchildStep(t.heap, lo, i, shouldBeGrandparent);
    GrandchildFacts(i, shouldBeGrandparent);
    t := Swap(t, i, shouldBeGrandparent);
    return t, shouldBeGrandparent, false;
  }

  /** _push_down(i): with every ancestor from lo on ordered against its
      descendants except slot i itself, moves records by swaps only until
      slot i's subtree is in order too. lo = i is the bottom-up heapify
      call; lo = 0 is the call after an update or a deletion. An array that
      is already ordered is left as it is. */
  method PushDown<K>(s: HeapDict<K>, i0: nat, ghost lo: nat) returns (t: HeapDict<K>)
    requires Linked(s) && lo <= i0 < |s.heap|
    requires OrderedFrom(s.heap, lo, i0)
    ensures Linked(t) && Items(t) == Items(s)
    ensures multiset(t.heap) == multiset(s.heap) && |t.heap| == |s.heap|
    ensures OrderedFrom(t.heap, lo, -1)
    ensures OrderedFrom(s.heap, lo, -1) ==> t == s
  {
    var minLevel := SelectorIsMin(Level(i0));
    t := s;
    var i: nat := i0;
    while true
      invariant Linked(t) && Items(t) == Items(s)
      invariant multiset(t.heap) == multiset(s.heap)
      invariant |t.heap| == |s.heap| && lo <= i < |t.heap|
      invariant IsMinLevel(i) == minLevel
      invariant OrderedFrom(t.heap, lo, i)
      invariant OrderedFrom(s.heap, lo, -1) ==> t == s
      decreases |t.heap| - i
    {
      var next, done;
      t, next, done := PushDownStep(t, i, minLevel, lo);
      if done {
        return;
      }
      i := next;
    }
  }

  // ---------------------------------------------------------------------
  // _push_up

  /** While the record that entered at slot x climbs from slot j: every
      pair is ordered except those below x and those above j on j's own
      level parity. */
  ghost predicate Climbing<K>(h: seq<Entry<K>>, x: nat, j: nat)
  {
    forall u: nat, d: nat ::
      (d < |h| && Anc(u, d) && u != x && !(d == j && Level(u) % 2 == Level(j) % 2)) ==>
        Ordered(h, u, d)
  }

  /** The parent step when slot x strictly beats its parent in the parent's
      direction: after the swap the record climbs from the parent. */
  lemma ParentSwap<K>(h: seq<Entry<K>>, x: nat)
    requires 1 <= x < |h| && OrderedAway(h, x)
    requires !Dom(IsMinLevel(Parent(x) as nat), h[Parent(x)].prio, h[x].prio)
    ensures Climbing(Exchange(h, x, Parent(x) as nat), x, Parent(x) as nat)
  {
    ParentFacts(x);
    var p := Parent(x) as nat;
    var h' := Exchange(h, x, p);
    assert Anc(p, x);
    forall u: nat, d: nat | d < |h'| && Anc(u, d) && u != x &&
      !(d == p && Level(u) % 2 == Level(p) % 2)
      ensures Ordered(h', u, d)
    {
      if d == p {
        AncLevel(u, p);
        assert Ordered(h, u, p);
      } else if u == p {
        if d != x {
          assert Ordered(h, p, d);
        }
      } else if d == x {
        AncViaParent(u, x);
        assert Ordered(h, u, p);
      } else {
        assert Ordered(h, u, d);
      }
    }
  }

  /** The parent step when the parent already dominates slot x: the record
      climbs from x itself. */
  lemma NoParentSwap<K>(h: seq<Entry<K>>, x: nat)
    requires 1 <= x < |h| && OrderedAway(h, x)
    requires Dom(IsMinLevel(Parent(x) as nat), h[Parent(x)].prio, h[x].prio)
    ensures Climbing(h, x, x)
  {
    ParentFacts(x);
    var p := Parent(x) as nat;
    forall u: nat, d: nat | d < |h| && Anc(u, d) && u != x &&
      !(d == x && Level(u) % 2 == Level(x) % 2)
      ensures Ordered(h, u, d)
    {
      if d != x {
        assert Ordered(h, u, d);
      } else if u != p {
        AncViaParent(u, x);
        assert IsMinLevel(u) == IsMinLevel(p);
        assert Ordered(h, u, p);
      }
    }
  }

  /** One climbing step: the record at j strictly beats its grandparent g
      in their common direction and trades places with it. */
  lemma ClimbStep<K>(h: seq<Entry<K>>, x: nat, j: nat)
    requires 3 <= j <= x < |h| && Climbing(h, x, j)
    requires !Dom(IsMinLevel(j), h[Grandparent(j)].prio, h[j].prio)
    ensures Climbing(Exchange(h, j, Grandparent(j) as nat), x, Grandparent(j) as nat)
  {
    GrandparentFacts(j);
    GrandparentAnc(j);
    ParentFacts(j);
    var g := Grandparent(j) as nat;
    var pj := Parent(j) as nat;
    var h' := Exchange(h, j, g);
    forall u: nat, d: nat | d < |h'| && Anc(u, d) && u != x &&
      !(d == g && Level(u) % 2 == Level(g) % 2)
      ensures Ordered(h', u, d)
    {
      if d == g {
        AncTrans(u, g, j);
        assert Ordered(h, u, j);
      } else if u == g {
        if d != j {
          assert Ordered(h, g, d);
        }
      } else if d == j {
        if u == pj {
          ParentFacts(pj);
          assert Anc(g, pj);
          assert Ordered(h, g, pj);
        } else {
          AncViaParent(u, j);
          AncViaParent(u, pj);
          assert Ordered(h, u, g);
        }
      } else if u == j {
        AncTrans(g, j, d);
        assert Ordered(h, g, d);
      } else {
        assert Ordered(h, u, d);
      }
    }
  }

  /** The climb stops where the record at j has no grandparent or its
      grandparent already dominates it: only pairs below x may be out of
      order. */
  lemma ClimbDone<K>(h: seq<Entry<K>>, x: nat, j: nat)
    requires j < |h| && Climbing(h, x, j)
    requires j >= 3 ==> Dom(IsMinLevel(j), h[Grandparent(j)].prio, h[j].prio)
    ensures OrderedFrom(h, 0, x)
  {
    forall u: nat, d: nat | d < |h| && Anc(u, d) && u != x
      ensures Ordered(h, u, d)
    {
      if d == j && Level(u) % 2 == Level(j) % 2 {
        AncSameParity(u, j);
        GrandparentFacts(j);
        var g := Grandparent(j) as nat;
        if u != g {
          AncTrans(u, g, j);
          GrandparentAnc(j);
          assert Ordered(h, u, g);
        }
      }
    }
  }

  /** The first half of _push_up: one comparison with the parent, using the
      parent level's selector; the entering record moves up one level only
      when it is strictly better. Returns where it now climbs from. */
  method FixParent<K>(s: HeapDict<K>, i0: nat) returns (t: HeapDict<K>, i: nat)
    requires Linked(s) && 1 <= i0 < |s.heap|
    requires OrderedAway(s.heap, i0)
    ensures Linked(t) && Items(t) == Items(s)
    ensures multiset(t.heap) == multiset(s.heap) && |t.heap| == |s.heap|
    ensures i == i0 || i == Parent(i0)
    ensures Climbing(t.heap, i0, i)
    ensures OrderedFrom(s.heap, 0, -1) ==> t == s && i == i0
  {
    ParentFacts(i0);
    var parent := Parent(i0) as nat;
    if OrderedFrom(s.heap, 0, -1) {
      assert Ordered(s.heap, parent, i0);
    }
    if Select(s.heap, SelectorIsMin(Level(parent)), [parent, i0]) == i0 {
      ParentSwap(s.heap, i0);
      t := Swap(s, i0, parent);
      i := parent;
    } else {
      NoParentSwap(s.heap, i0);
      t := s;
      i := i0;
    }
  }

  /** One iteration of the _push_up loop at slot j (which has a
      grandparent): stop if the grandparent is at least as good under the
      selector, otherwise swap with it and continue from there. */
  method ClimbStepUp<K>(s: HeapDict<K>, x: nat, j: nat, minLevel: bool) returns (t: HeapDict<K>, next: nat, done: bool)
    requires Linked(s) && 3 <= j <= x < |s.heap| && IsMinLevel(j) == minLevel
    requires Climbing(s.heap, x, j)
    ensures Linked(t) && Items(t) == Items(s)
    ensures multiset(t.heap) == multiset(s.heap) && |t.heap| == |s.heap|
    ensures done ==> t == s && Dom(IsMinLevel(j), s.heap[Grandparent(j)].prio, s.heap[j].prio)
    ensures !done ==> next == Grandparent(j) && IsMinLevel(next) == minLevel && Climbing(t.heap, x, next)
    ensures OrderedFrom(s.heap, 0, -1) ==> done
  {
    GrandparentFacts(j);
    var grandparent := Grandparent(j) as nat;
    if OrderedFrom(s.heap, 0, -1) {
      GrandparentAnc(j);
      assert Ordered(s.heap, grandparent, j);
    }
    if Select(s.heap, minLevel, [grandparent, j]) == grandparent {
      return s, j, true;
    }
    ClimbStep(s.heap, x, j);
    t := Swap(s, j, grandparent);
    return t, grandparent, false;
  }

  /** _push_up(i): with every pair ordered that does not involve slot i,
      moves records by swaps only until the only pairs possibly out of
      order are those below slot i. An array that is already ordered is
      left as it is. */
  method PushUp<K>(s: HeapDict<K>, i0: nat) returns (t: HeapDict<K>)
    requires Linked(s) && i0 < |s.heap|
    requires OrderedAway(s.heap, i0)
    ensures Linked(t) && Items(t) == Items(s)
    ensures multiset(t.heap) == multiset(s.heap) && |t.heap| == |s.heap|
    ensures OrderedFrom(t.heap, 0, i0)
    ensures OrderedFrom(s.heap, 0, -1) ==> t == s
  {
    if Parent(i0) < 0 {
      return s;
    }
    var i: nat;
    t, i := FixParent(s, i0);
    var minLevel := SelectorIsMin(Level(i));
    while Grandparent(i) >= 0
      invariant Linked(t) && Items(t) == Items(s)
      invariant multiset(t.heap) == multiset(s.heap)
      invariant |t.heap| == |s.heap| && i <= i0
      invariant IsMinLevel(i) == minLevel
      invariant Climbing(t.heap, i0, i)
      invariant OrderedFrom(s.heap, 0, -1) ==> t == s
      decreases i
    {
      GrandparentFacts(i);
      var next, done;
      t, next, done := ClimbStepUp(t, i0, i, minLevel);
      if done {
        ClimbDone(t.heap, i0, i);
        return;
      }
      i := next;
    }
    GrandparentFacts(i);
    ClimbDone(t.heap, i0, i);
  }
}
