/** Index arithmetic of the implicit complete binary tree laid out in an array:
    levels, parents, grandparents, children and the ancestor relation.
    Slot i has children 2i+1 and 2i+2. Parent and grandparent use floor
    division, so they are negative exactly when the slot has none. */
module IndexMath {

  /** Number of binary digits of n, as Python's int.bit_length. */
  function BitLength(n: nat): nat
  {
    if n == 0 then 0 else 1 + BitLength(n / 2)
  }

  function Pow2(e: nat): nat
  {
    if e == 0 then 1 else 2 * Pow2(e - 1)
  }

  /** Depth of slot i in the tree; the root is at level 0. */
  function Level(i: nat): nat
  {
    BitLength(i + 1) - 1
  }

  /** The selector of a level: min on even levels, max on odd levels. */
  predicate SelectorIsMin(level: nat)
  {
    level % 2 == 0
  }

  /** Slot i sits on a min level. */
  predicate IsMinLevel(i: nat)
  {
    SelectorIsMin(Level(i))
  }

  /** (i - 1) // 2; negative means "no parent". Dafny's division by a
      positive constant floors, as Python's // does. */
  function Parent(i: int): int
  {
    (i - 1) / 2
  }

  /** (i - 3) // 4; negative means "no grandparent". */
  function Grandparent(i: int): int
  {
    (i - 3) / 4
  }

  /** u is a proper ancestor of d: d reaches u by following parents. */
  predicate Anc(u: nat, d: nat)
    decreases d
  {
    u < d && (Parent(d) == u || Anc(u, Parent(d) as nat))
  }

  /** Level is floor(log2(i + 1)). */
  lemma {:induction false} BitLengthBounds(n: nat)
    requires n >= 1
    ensures Pow2(BitLength(n) - 1) <= n < Pow2(BitLength(n))
    decreases n
  {
    if n > 1 {
      BitLengthBounds(n / 2);
    }
  }

  lemma LevelBounds(i: nat)
    ensures Pow2(Level(i)) <= i + 1 < Pow2(Level(i) + 1)
  {
    BitLengthBounds(i + 1);
  }

  /** The parent of a non-root slot exists, precedes it and sits one level
      higher; the root has none. */
  lemma ParentFacts(i: nat)
    ensures i == 0 ==> Parent(i) < 0
    ensures i >= 1 ==> 0 <= Parent(i) < i && Level(Parent(i)) + 1 == Level(i)
    ensures i >= 1 ==> IsMinLevel(Parent(i)) == !IsMinLevel(i)
  {
    if i >= 1 {
      assert Parent(i) + 1 == (i + 1) / 2;
    }
  }

  /** The grandparent is the parent's parent, and exists exactly from slot 3 on. */
  lemma GrandparentFacts(i: nat)
    ensures i < 3 ==> Grandparent(i) < 0
    ensures i >= 3 ==> Grandparent(i) == Parent(Parent(i)) >= 0
    ensures i >= 3 ==> Level(Grandparent(i)) + 2 == Level(i)
    ensures i >= 3 ==> IsMinLevel(Grandparent(i)) == IsMinLevel(i)
  {
    if i >= 3 {
      ParentFacts(i);
      ParentFacts(Parent(i));
    }
  }

  /** The slots listed as children of i have i as parent, one level down. */
  lemma ChildFacts(i: nat, c: nat)
    requires 2 * i + 1 <= c <= 2 * i + 2
    ensures Parent(c) == i && Level(c) == Level(i) + 1 && Anc(i, c)
    ensures IsMinLevel(c) == !IsMinLevel(i)
  {
    ParentFacts(c);
  }

  /** The slots listed as grandchildren of i have i as grandparent. */
  lemma GrandchildFacts(i: nat, g: nat)
    requires 4 * i + 3 <= g <= 4 * i + 6
    ensures Grandparent(g) == i && Level(g) == Level(i) + 2 && Anc(i, g)
    ensures 2 * i + 1 <= Parent(g) <= 2 * i + 2
    ensures IsMinLevel(g) == IsMinLevel(i)
  {
    GrandparentFacts(g);
    ParentFacts(g);
    ParentFacts(Parent(g));
  }

  lemma {:induction false} AncLevel(u: nat, d: nat)
    requires Anc(u, d)
    ensures Level(u) < Level(d)
    decreases d
  {
    ParentFacts(d);
    if Parent(d) != u {
      AncLevel(u, Parent(d));
    }
  }

  lemma {:induction false} AncTrans(a: nat, b: nat, c: nat)
    requires Anc(a, b) && Anc(b, c)
    ensures Anc(a, c)
    decreases c
  {
    ParentFacts(c);
    if Parent(c) != b {
      AncTrans(a, b, Parent(c));
    }
  }

  /** The grandparent of d is an ancestor of d. */
  lemma GrandparentAnc(d: nat)
    requires d >= 3
    ensures Anc(Grandparent(d) as nat, d)
  {
    GrandparentFacts(d);
    ParentFacts(d);
  }

  /** An ancestor of d other than its parent is an ancestor of the parent. */
  lemma AncViaParent(u: nat, d: nat)
    requires Anc(u, d) && u != Parent(d)
    ensures Anc(u, Parent(d) as nat)
  {
    ParentFacts(d);
  }

  /** An ancestor of d on d's own level parity is d's grandparent or an
      ancestor of it. */
  lemma AncSameParity(u: nat, d: nat)
    requires Anc(u, d) && Level(u) % 2 == Level(d) % 2
    ensures d >= 3 && (u == Grandparent(d) || Anc(u, Grandparent(d) as nat))
  {
    ParentFacts(d);
    if u == Parent(d) {
      assert false;
    }
    var p := Parent(d) as nat;
    assert Anc(u, p);
    ParentFacts(p);
    if d < 3 {
      assert false;
    }
    GrandparentFacts(d);
  }

  /** A descendant of i that is neither a child nor a grandchild lies under
      one of i's grandchildren. */
  lemma {:induction false} DeepDescendant(i: nat, d: nat)
    requires Anc(i, d) && !(2 * i + 1 <= d <= 2 * i + 2) && !(4 * i + 3 <= d <= 4 * i + 6)
    ensures exists g :: 4 * i + 3 <= g <= 4 * i + 6 && Anc(g, d)
    decreases d
  {
    ParentFacts(d);
    var p := Parent(d) as nat;
    if p == i {
      assert false;
    } else if 2 * i + 1 <= p <= 2 * i + 2 {
      assert false;
    } else if 4 * i + 3 <= p <= 4 * i + 6 {
      assert Anc(p, d);
    } else {
      DeepDescendant(i, p);
      var g :| 4 * i + 3 <= g <= 4 * i + 6 && Anc(g, p);
      assert Anc(g, d);
    }
  }

  /** Descendants of i lie at or beyond its first child. */
  lemma {:induction false} AncChildBound(u: nat, d: nat)
    requires Anc(u, d)
    ensures d >= 2 * u + 1
    decreases d
  {
    ParentFacts(d);
    if Parent(d) != u {
      AncChildBound(u, Parent(d));
    }
  }

  /** Every slot after the root descends from the root. */
  lemma {:induction false} AncRoot(d: nat)
    requires d >= 1
    ensures Anc(0, d)
    decreases d
  {
    ParentFacts(d);
    if Parent(d) != 0 {
      AncRoot(Parent(d));
    }
  }

  /** Every slot below level 1 descends from slot 1 or slot 2. */
  lemma {:induction false} AncTopChildren(d: nat)
    requires d >= 3
    ensures Anc(1, d) || Anc(2, d)
    decreases d
  {
    ParentFacts(d);
    var p := Parent(d) as nat;
    if p >= 3 {
      AncTopChildren(p);
    }
  }
}
