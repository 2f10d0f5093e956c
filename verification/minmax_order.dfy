/** The min-max heap order on an array of records. A record on a min level
    must not exceed anything below it, and one on a max level must not be
    exceeded by anything below it. The local form checks each slot against
    its parent and grandparent only; the global form relates every ancestor
    to every descendant. They are equivalent, and the repair procedures are
    proved against the global form. */
module MinMaxOrder {
  import opened IndexMath

  /** One heap record: a priority and its key. The record's slot number is
      kept in the key index (see HeapState). */
  datatype Entry<K> = Entry(prio: int, key: K)

  /** a may sit above b on a level whose selector is min (a <= b) or max (a >= b). */
  predicate Dom(minLevel: bool, a: int, b: int)
  {
    if minLevel then a <= b else a >= b
  }

  /** The record at u may sit above the record at d. */
  predicate Ordered<K>(h: seq<Entry<K>>, u: nat, d: nat)
    requires u < |h| && d < |h|
  {
    Dom(IsMinLevel(u), h[u].prio, h[d].prio)
  }

  /** The invariant as the test suite states it: every slot is correctly
      ordered against its parent and against its grandparent. */
  predicate LocallyOrdered<K>(h: seq<Entry<K>>)
  {
    && (forall i :: 1 <= i < |h| ==>
          if Level(i) % 2 == 0 then h[Parent(i)].prio >= h[i].prio
          else h[Parent(i)].prio <= h[i].prio)
    && (forall i :: 3 <= i < |h| ==>
          if Level(i) % 2 == 0 then h[Grandparent(i)].prio <= h[i].prio
          else h[Grandparent(i)].prio >= h[i].prio)
  }

  /** Every ancestor u with lo <= u and u != skip is ordered against every
      one of its descendants. With lo = 0 and skip = -1 this is the whole
      min-max order; the repair loops work with a slot excluded. */
  ghost predicate OrderedFrom<K>(h: seq<Entry<K>>, lo: nat, skip: int)
  {
    forall u: nat, d: nat :: d < |h| && Anc(u, d) && lo <= u && u != skip ==> Ordered(h, u, d)
  }

  /** Every ancestor/descendant pair in which slot x takes no part is ordered:
      the state right after the record at x has been replaced. */
  ghost predicate OrderedAway<K>(h: seq<Entry<K>>, x: nat)
  {
    forall u: nat, d: nat :: d < |h| && Anc(u, d) && u != x && d != x ==> Ordered(h, u, d)
  }

  lemma {:induction false} LocalToGlobalAt<K>(h: seq<Entry<K>>, d: nat)
    requires LocallyOrdered(h) && d < |h|
    ensures forall u: nat :: Anc(u, d) ==> Ordered(h, u, d)
    decreases d
  {
    forall u: nat | Anc(u, d)
      ensures Ordered(h, u, d)
    {
      ParentFacts(d);
      var p := Parent(d) as nat;
      if u == p {
        assert h[p].prio >= h[d].prio || h[p].prio <= h[d].prio;
      } else if Level(u) % 2 == Level(d) % 2 {
        AncSameParity(u, d);
        GrandparentFacts(d);
        var g := Grandparent(d) as nat;
        assert Dom(IsMinLevel(g), h[g].prio, h[d].prio);
        if u != g {
          LocalToGlobalAt(h, g);
          assert Ordered(h, u, g);
        }
      } else {
        AncViaParent(u, d);
        LocalToGlobalAt(h, p);
        assert Ordered(h, u, p);
        assert Dom(IsMinLevel(p), h[p].prio, h[d].prio);
      }
    }
  }

  /** The test suite's local invariant and the global order coincide. */
  lemma LocalIffGlobal<K>(h: seq<Entry<K>>)
    ensures LocallyOrdered(h) <==> OrderedFrom(h, 0, -1)
  {
    if LocallyOrdered(h) {
      forall u: nat, d: nat | d < |h| && Anc(u, d)
        ensures Ordered(h, u, d)
      {
        LocalToGlobalAt(h, d);
      }
    }
    if OrderedFrom(h, 0, -1) {
      forall i | 1 <= i < |h|
        ensures if Level(i) % 2 == 0 then h[Parent(i)].prio >= h[i].prio
                else h[Parent(i)].prio <= h[i].prio
      {
        ParentFacts(i);
        assert Ordered(h, Parent(i) as nat, i);
      }
      forall i | 3 <= i < |h|
        ensures if Level(i) % 2 == 0 then h[Grandparent(i)].prio <= h[i].prio
                else h[Grandparent(i)].prio >= h[i].prio
      {
        GrandparentFacts(i);
        GrandparentAnc(i);
        assert Ordered(h, Grandparent(i) as nat, i);
      }
    }
  }

  /** In an ordered heap the root holds a minimal priority. */
  lemma RootIsMinimal<K>(h: seq<Entry<K>>)
    requires OrderedFrom(h, 0, -1) && |h| > 0
    ensures forall d :: 0 <= d < |h| ==> h[0].prio <= h[d].prio
  {
    forall d | 1 <= d < |h|
      ensures h[0].prio <= h[d].prio
    {
      AncRoot(d);
      assert Ordered(h, 0, d);
    }
  }

  /** In an ordered heap with at least three records, every priority is
      bounded by the one at slot 1 or the one at slot 2. */
  lemma TopChildrenAreMaximal<K>(h: seq<Entry<K>>)
    requires OrderedFrom(h, 0, -1) && |h| > 2
    ensures forall d :: 0 <= d < |h| ==> h[d].prio <= h[1].prio || h[d].prio <= h[2].prio
    ensures h[0].prio <= h[1].prio && h[0].prio <= h[2].prio
  {
    assert Level(1) == 1 && Level(2) == 1;
    AncRoot(1);
    AncRoot(2);
    assert Ordered(h, 0, 1) && Ordered(h, 0, 2);
    forall d | 3 <= d < |h|
      ensures h[d].prio <= h[1].prio || h[d].prio <= h[2].prio
    {
      AncTopChildren(d);
      if Anc(1, d) {
        assert Ordered(h, 1, d);
      } else {
        assert Ordered(h, 2, d);
      }
    }
  }
}
