/** The public operations of the heap dictionary: construction, lookup,
    assignment, deletion, the two extreme items and their removal, size and
    clearing. The Python class mutates itself in place; here every mutating
    operation takes the current state and returns the new one. */
module HeapDictOps {
  import opened IndexMath
  import opened MinMaxOrder
  import opened Selector
  import opened HeapState
  import opened Repair

  /** The only failure the modelled operations report: a missing key. */
  datatype Error = KeyError

  datatype Result<T> = Success(value: T) | Failure(error: Error)

  datatype Outcome = Pass | Fail(error: Error)

  // ----------------------------------------------------------------------
  // Raw edits of array and index, before the order is repaired
  // ----------------------------------------------------------------------

  /** Appends a record for a new key at the end of the array and indexes it
      there. */
  function Append<K>(s: HeapDict<K>, key: K, prio: int): (t: HeapDict<K>)
    requires Linked(s) && key !in s.index
    ensures Linked(t) && |t.heap| == |s.heap| + 1
    ensures t.heap[|s.heap|] == Entry(prio, key)
    ensures forall j :: 0 <= j < |s.heap| ==> t.heap[j] == s.heap[j]
    ensures Items(t) == Items(s)[key := prio]
  {
    var t := HeapDict(s.heap + [Entry(prio, key)], s.index[key := |s.heap|]);
    assert forall k :: k in s.index ==> k != key && t.index[k] == s.index[k];
    assert Linked(t);
    assert Items(t) == Items(s)[key := prio];
    t
  }

  /** Overwrites the priority of the record at slot i in place; the record
      stays where it is. */
  function Assign<K>(s: HeapDict<K>, i: nat, prio: int): (t: HeapDict<K>)
    requires Linked(s) && i < |s.heap|
    ensures Linked(t) && |t.heap| == |s.heap|
    ensures t.heap[i] == Entry(prio, s.heap[i].key)
    ensures forall j :: 0 <= j < |s.heap| && j != i ==> t.heap[j] == s.heap[j]
    ensures Items(t) == Items(s)[s.heap[i].key := prio]
  {
    var t := HeapDict(s.heap[i := Entry(prio, s.heap[i].key)], s.index);
    assert Linked(t);
    assert Items(t) == Items(s)[s.heap[i].key := prio];
    t
  }

  /** Removes the key from the index and the last record from the array, and
      puts that last record into the vacated slot unless the vacated slot was
      the last one. Returns the new state and the vacated slot. */
  function Unlink<K>(s: HeapDict<K>, key: K): (r: (HeapDict<K>, nat))
    requires Linked(s) && key in s.index
    ensures var (t, i) := r;
            && Linked(t) && |t.heap| == |s.heap| - 1
            && i == s.index[key]
            && (i < |t.heap| ==> t.heap[i] == s.heap[|s.heap| - 1])
            && (forall j :: 0 <= j < |t.heap| && j != i ==> t.heap[j] == s.heap[j])
            && Items(t) == Items(s) - {key}
  {
    var i := s.index[key];
    var n := |s.heap| - 1;
    if i < n then
      var t := HeapDict(s.heap[..n][i := s.heap[n]], (s.index - {key})[s.heap[n].key := i]);
      UnlinkMovesLast(s, key);
      (t, i)
    else
      var t := HeapDict(s.heap[..n], s.index - {key});
      UnlinkDropsLast(s, key);
      (t, i)
  }

  lemma UnlinkMovesLast<K>(s: HeapDict<K>, key: K)
    requires Linked(s) && key in s.index && s.index[key] < |s.heap| - 1
    ensures var i, n := s.index[key], |s.heap| - 1;
            var t := HeapDict(s.heap[..n][i := s.heap[n]], (s.index - {key})[s.heap[n].key := i]);
            Linked(t) && Items(t) == Items(s) - {key}
  {
    var i, n := s.index[key], |s.heap| - 1;
    var last := s.heap[n];
    var t := HeapDict(s.heap[..n][i := last], (s.index - {key})[last.key := i]);
    MovedIndexSize(s, key);
    MovedSlotsIndexed(s, key);
    MovedIndexLeadsBack(s, key);
    assert Linked(t);
  }

  lemma MovedIndexSize<K>(s: HeapDict<K>, key: K)
    requires Linked(s) && key in s.index && s.index[key] < |s.heap| - 1
    ensures var i, n := s.index[key], |s.heap| - 1;
            |(s.index - {key})[s.heap[n].key := i]| == n
  {
    var n := |s.heap| - 1;
    assert s.index[s.heap[n].key] == n;
    assert s.heap[n].key in s.index - {key};
  }

  lemma MovedSlotsIndexed<K>(s: HeapDict<K>, key: K)
    requires Linked(s) && key in s.index && s.index[key] < |s.heap| - 1
    ensures var i, n := s.index[key], |s.heap| - 1;
            var t := HeapDict(s.heap[..n][i := s.heap[n]], (s.index - {key})[s.heap[n].key := i]);
            forall p :: 0 <= p < |t.heap| ==> t.heap[p].key in t.index && t.index[t.heap[p].key] == p
  {
    var i, n := s.index[key], |s.heap| - 1;
    var t := HeapDict(s.heap[..n][i := s.heap[n]], (s.index - {key})[s.heap[n].key := i]);
    forall p | 0 <= p < |t.heap|
      ensures t.heap[p].key in t.index && t.index[t.heap[p].key] == p
    {
      if p != i {
        assert t.heap[p] == s.heap[p];
        assert s.index[s.heap[p].key] == p;
      }
    }
  }

  lemma MovedIndexLeadsBack<K>(s: HeapDict<K>, key: K)
    requires Linked(s) && key in s.index && s.index[key] < |s.heap| - 1
    ensures var i, n := s.index[key], |s.heap| - 1;
            var t := HeapDict(s.heap[..n][i := s.heap[n]], (s.index - {key})[s.heap[n].key := i]);
            forall k :: k in t.index ==>
              t.index[k] < |t.heap| && t.heap[t.index[k]] == s.heap[s.index[k]] && t.heap[t.index[k]].key == k
  {
    var i, n := s.index[key], |s.heap| - 1;
    var t := HeapDict(s.heap[..n][i := s.heap[n]], (s.index - {key})[s.heap[n].key := i]);
    forall k | k in t.index
      ensures t.index[k] < |t.heap| && t.heap[t.index[k]] == s.heap[s.index[k]] && t.heap[t.index[k]].key == k
    {
      if k != s.heap[n].key {
        var q := s.index[k];
        assert q != i && q != n;
      }
    }
  }

  lemma UnlinkDropsLast<K>(s: HeapDict<K>, key: K)
    requires Linked(s) && key in s.index && s.index[key] == |s.heap| - 1
    ensures var t := HeapDict(s.heap[..|s.heap| - 1], s.index - {key});
            Linked(t) && Items(t) == Items(s) - {key}
  {
    var n := |s.heap| - 1;
    var t := HeapDict(s.heap[..n], s.index - {key});
    forall k | k in t.index
      ensures t.index[k] < |t.heap| && t.heap[t.index[k]] == s.heap[s.index[k]] && t.heap[t.index[k]].key == k
    {
      assert s.index[k] != n;
    }
    assert Linked(t);
  }

  // ----------------------------------------------------------------------
  // Order facts for the raw edits
  // ----------------------------------------------------------------------

  /** An array that agrees with an ordered array everywhere except at slot x
      (and possibly ends earlier, or has one new slot at x) has every pair
      not touching x ordered. */
  lemma AwayFromOrdered<K>(h: seq<Entry<K>>, h': seq<Entry<K>>, x: nat)
    requires OrderedFrom(h, 0, -1) && x < |h'|
    requires forall j :: 0 <= j < |h'| && j != x ==> j < |h| && h'[j] == h[j]
    ensures OrderedAway(h', x)
  {
    forall u: nat, d: nat | d < |h'| && Anc(u, d) && u != x && d != x
      ensures Ordered(h', u, d)
    {
      AncChildBound(u, d);
      assert u < |h'| && h'[u] == h'[u] && h'[d] == h'[d];
      assert h'[u] == h[u] && h'[d] == h[d];
      assert Ordered(h, u, d);
    }
  }

  /** A prefix of an ordered array is ordered. */
  lemma PrefixOrdered<K>(h: seq<Entry<K>>, m: nat)
    requires OrderedFrom(h, 0, -1) && m <= |h|
    ensures OrderedFrom(h[..m], 0, -1)
  {
    forall u: nat, d: nat | d < m && Anc(u, d)
      ensures Ordered(h[..m], u, d)
    {
      assert Ordered(h, u, d);
    }
  }

  /** Slots from lo on whose children all lie beyond the array impose no
      order at all. */
  lemma NoDescendantsFrom<K>(h: seq<Entry<K>>, lo: nat)
    requires 2 * lo + 1 >= |h|
    ensures OrderedFrom(h, lo, -1)
  {
    forall u: nat, d: nat | Anc(u, d)
      ensures d >= 2 * u + 1
    {
      AncChildBound(u, d);
    }
  }

  /** Excluding a leaf from the order excludes nothing. */
  lemma LeafSkip<K>(h: seq<Entry<K>>, x: nat)
    requires 2 * x + 1 >= |h| && OrderedFrom(h, 0, x)
    ensures OrderedFrom(h, 0, -1)
  {
    forall u: nat, d: nat | Anc(u, d)
      ensures d >= 2 * u + 1
    {
      AncChildBound(u, d);
    }
  }

  // ----------------------------------------------------------------------
  // Operations
  // ----------------------------------------------------------------------

  /** The dictionary a sequence of (key, priority) pairs denotes, later
      pairs overriding earlier ones for the same key. */
  ghost function PairsMap<K>(pairs: seq<(K, int)>): map<K, int>
  {
    if |pairs| == 0 then map[]
    else PairsMap(pairs[..|pairs| - 1])[pairs[|pairs| - 1].0 := pairs[|pairs| - 1].1]
  }

  predicate DistinctKeys<K(==)>(pairs: seq<(K, int)>)
  {
    forall a, b :: 0 <= a < b < |pairs| ==> pairs[a].0 != pairs[b].0
  }

  /** The first half of __init__: one record per pair, in order, each
      recording its own slot. */
  method Enumerate<K>(pairs: seq<(K, int)>) returns (t: HeapDict<K>)
    requires DistinctKeys(pairs)
    ensures Linked(t) && |t.heap| == |pairs|
    ensures forall j :: 0 <= j < |pairs| ==> t.heap[j] == Entry(pairs[j].1, pairs[j].0)
    ensures Items(t) == PairsMap(pairs)
  {
    t := HeapDict([], map[]);
    var i := 0;
    while i < |pairs|
      invariant 0 <= i <= |pairs|
      invariant Linked(t) && |t.heap| == i
      invariant forall j :: 0 <= j < i ==> t.heap[j] == Entry(pairs[j].1, pairs[j].0)
      invariant Items(t) == PairsMap(pairs[..i])
    {
      var (key, value) := pairs[i];
      assert key !in t.index;
      assert pairs[..i + 1][..i] == pairs[..i];
      t := Append(t, key, value);
      i := i + 1;
    }
    assert pairs[..|pairs|] == pairs;
  }

  /** The second half of __init__: push_down on every slot that has a
      child, from the last such slot back to the root. */
  method Heapify<K>(s: HeapDict<K>) returns (t: HeapDict<K>)
    requires Linked(s)
    ensures Valid(t) && Items(t) == Items(s) && |t.heap| == |s.heap|
    ensures multiset(t.heap) == multiset(s.heap)
  {
    t := s;
    var k := |t.heap| / 2;
    NoDescendantsFrom(t.heap, k);
    while k > 0
      invariant 0 <= k <= |t.heap| / 2
      invariant Linked(t) && Items(t) == Items(s) && |t.heap| == |s.heap|
      invariant multiset(t.heap) == multiset(s.heap)
      invariant OrderedFrom(t.heap, k, -1)
    {
      k := k - 1;
      t := PushDown(t, k, k);
    }
    LocalIffGlobal(t.heap);
  }

  /** __init__ on pairs with distinct keys: a well-formed heap dictionary
      holding exactly the pairs. */
  method FromPairs<K>(pairs: seq<(K, int)>) returns (t: HeapDict<K>)
    requires DistinctKeys(pairs)
    ensures Valid(t)
    ensures Items(t) == PairsMap(pairs)
    ensures |t.heap| == |pairs|
  {
    t := Enumerate(pairs);
    t := Heapify(t);
  }

  /** __getitem__: the priority of a present key, KeyError otherwise. The
      answer is read off the record array itself. */
  function Get<K>(s: HeapDict<K>, key: K): (r: Result<int>)
    requires Linked(s)
    ensures r.Success? <==> key in Items(s)
    ensures r.Success? ==> r.value == Items(s)[key]
    ensures r.Success? ==> exists i :: 0 <= i < |s.heap| && s.heap[i] == Entry(r.value, key)
    ensures r.Failure? ==> r.error == KeyError && forall i :: 0 <= i < |s.heap| ==> s.heap[i].key != key
  {
    if key in s.index then
      var i := s.index[key];
      assert s.heap[i] == Entry(s.heap[i].prio, key);
      Success(s.heap[i].prio)
    else
      Failure(KeyError)
  }

  /** The repair __setitem__ and __delitem__ run after putting a record
      into slot i: push_up(i), then push_down(i) on whatever record slot i
      holds afterwards. */
  method Restore<K>(s: HeapDict<K>, i: nat) returns (t: HeapDict<K>)
    requires Linked(s) && i < |s.heap| && OrderedAway(s.heap, i)
    ensures Linked(t) && Items(t) == Items(s) && |t.heap| == |s.heap|
    ensures multiset(t.heap) == multiset(s.heap)
    ensures Valid(t)
    ensures OrderedFrom(s.heap, 0, -1) ==> t == s
  {
    t := PushUp(s, i);
    t := PushDown(t, i, 0);
    LocalIffGlobal(t.heap);
  }

  /** __setitem__: a present key gets the new priority in place, followed by
      push_up and push_down at its slot; an absent key is appended and
      pushed up. The dictionary gains or changes exactly that key. */
  method Set<K>(s: HeapDict<K>, key: K, prio: int) returns (t: HeapDict<K>)
    requires Valid(s)
    ensures Valid(t)
    ensures Items(t) == Items(s)[key := prio]
    ensures |t.heap| == if key in Items(s) then |s.heap| else |s.heap| + 1
    ensures key in Items(s) && Items(s)[key] == prio ==> t == s
  {
    LocalIffGlobal(s.heap);
    if key in s.index {
      var i := s.index[key];
      var a := Assign(s, i, prio);
      if s.heap[i].prio == prio {
        assert a.heap == s.heap;
      }
      AwayFromOrdered(s.heap, a.heap, i);
      t := Restore(a, i);
    } else {
      var n := |s.heap|;
      var a := Append(s, key, prio);
      AwayFromOrdered(s.heap, a.heap, n);
      t := PushUp(a, n);
      LeafSkip(t.heap, n);
      LocalIffGlobal(t.heap);
    }
  }

  /** __delitem__: KeyError with nothing changed for an absent key;
      otherwise the key's record is replaced by the last record, which is
      then pushed up and pushed down. */
  method Delete<K>(s: HeapDict<K>, key: K) returns (t: HeapDict<K>, outcome: Outcome)
    requires Valid(s)
    ensures outcome.Fail? <==> key !in Items(s)
    ensures outcome.Fail? ==> outcome.error == KeyError && t == s
    ensures Valid(t)
    ensures Items(t) == Items(s) - {key}
    ensures |t.heap| == if key in Items(s) then |s.heap| - 1 else |s.heap|
  {
    if key !in s.index {
      return s, Fail(KeyError);
    }
    t := Remove(s, key);
    outcome := Pass;
  }

  /** __delitem__ for a present key. */
  method Remove<K>(s: HeapDict<K>, key: K) returns (t: HeapDict<K>)
    requires Valid(s) && key in s.index
    ensures Valid(t) && Items(t) == Items(s) - {key} && |t.heap| == |s.heap| - 1
  {
    LocalIffGlobal(s.heap);
    var (u, i) := Unlink(s, key);
    if i < |u.heap| {
      AwayFromOrdered(s.heap, u.heap, i);
      t := Restore(u, i);
    } else {
      assert u.heap == s.heap[..|u.heap|];
      PrefixOrdered(s.heap, |u.heap|);
      LocalIffGlobal(u.heap);
      t := u;
    }
  }

  /** min_item: the record at the root, which carries a smallest priority. */
  function MinItem<K>(s: HeapDict<K>): (r: (K, int))
    requires Valid(s) && |s.heap| > 0
    ensures r.0 in Items(s) && Items(s)[r.0] == r.1
    ensures forall k :: k in Items(s) ==> r.1 <= Items(s)[k]
  {
    LocalIffGlobal(s.heap);
    RootIsMinimal(s.heap);
    (s.heap[0].key, s.heap[0].prio)
  }

  /** _get_max_index: the larger of slots 1 and 2 (slot 1 on a tie) when
      both exist, otherwise the last slot. */
  function MaxIndex<K>(h: seq<Entry<K>>): (r: nat)
    requires |h| > 0
    ensures r < |h|
    ensures |h| <= 2 ==> r == |h| - 1
    ensures |h| > 2 ==> (r == 1 || r == 2) && h[r].prio >= h[1].prio && h[r].prio >= h[2].prio
    ensures |h| > 2 && h[1].prio == h[2].prio ==> r == 1
  {
    if |h| > 2 then Select(h, SelectorIsMin(1), [1, 2]) else |h| - 1
  }

  /** In an ordered array the slot _get_max_index picks holds a largest
      priority. */
  lemma MaxIndexIsMaximal<K>(h: seq<Entry<K>>)
    requires OrderedFrom(h, 0, -1) && |h| > 0
    ensures forall d :: 0 <= d < |h| ==> h[d].prio <= h[MaxIndex(h)].prio
  {
    var m := MaxIndex(h);
    if |h| > 2 {
      TopChildrenAreMaximal(h);
      assert h[m].prio >= h[1].prio && h[m].prio >= h[2].prio;
    } else {
      RootIsMinimal(h);
      assert m == |h| - 1;
    }
    forall d | 0 <= d < |h|
      ensures h[d].prio <= h[m].prio
    {
    }
  }

  /** max_item: the record at the slot _get_max_index picks, which carries a
      largest priority. */
  function MaxItem<K>(s: HeapDict<K>): (r: (K, int))
    requires Valid(s) && |s.heap| > 0
    ensures r.0 in Items(s) && Items(s)[r.0] == r.1
    ensures forall k :: k in Items(s) ==> Items(s)[k] <= r.1
  {
    LocalIffGlobal(s.heap);
    MaxIndexIsMaximal(s.heap);
    var m := MaxIndex(s.heap);
    (s.heap[m].key, s.heap[m].prio)
  }

  /** pop_min_item: removes and returns an item of smallest priority. */
  method PopMinItem<K>(s: HeapDict<K>) returns (t: HeapDict<K>, item: (K, int))
    requires Valid(s) && |s.heap| > 0
    ensures item.0 in Items(s) && Items(s)[item.0] == item.1
    ensures forall k :: k in Items(s) ==> item.1 <= Items(s)[k]
    ensures Valid(t) && Items(t) == Items(s) - {item.0}
    ensures |t.heap| == |s.heap| - 1
    ensures item == MinItem(s)
  {
    item := MinItem(s);
    var outcome;
    t, outcome := Delete(s, item.0);
  }

  /** pop_max_item: removes and returns an item of largest priority. */
  method PopMaxItem<K>(s: HeapDict<K>) returns (t: HeapDict<K>, item: (K, int))
    requires Valid(s) && |s.heap| > 0
    ensures item.0 in Items(s) && Items(s)[item.0] == item.1
    ensures forall k :: k in Items(s) ==> Items(s)[k] <= item.1
    ensures Valid(t) && Items(t) == Items(s) - {item.0}
    ensures |t.heap| == |s.heap| - 1
    ensures item == MaxItem(s)
  {
    item := MaxItem(s);
    var outcome;
    t, outcome := Delete(s, item.0);
  }

  /** __len__: the length of the record array, which is the number of keys. */
  function Len<K>(s: HeapDict<K>): (n: nat)
    requires Linked(s)
    ensures n == |Items(s)|
  {
    assert Items(s).Keys == s.index.Keys;
    |s.heap|
  }

  /** clear: an empty, well-formed dictionary. */
  function Clear<K>(s: HeapDict<K>): (t: HeapDict<K>)
    ensures Valid(t) && Items(t) == map[] && Len(t) == 0
  {
    HeapDict([], map[])
  }
}
