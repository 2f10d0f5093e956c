/** The two structures a heap dictionary keeps in lock-step: the record array
    and the key index. In the Python class each record carries its own slot
    number and the key index maps a key to the record object itself; here the
    index maps a key straight to that slot number, so "the record's index
    field" and "the index entry of its key" are one and the same value. */
module HeapState {
  import opened IndexMath
  import opened MinMaxOrder

  datatype HeapDict<K> = HeapDict(heap: seq<Entry<K>>, index: map<K, nat>)

  /** Array and key index agree: every record's recorded slot is its actual
      slot, every index entry leads to a record carrying that key, and both
      have the same size. */
  ghost predicate Linked<K>(s: HeapDict<K>)
  {
    && |s.index| == |s.heap|
    && (forall i :: 0 <= i < |s.heap| ==> s.heap[i].key in s.index && s.index[s.heap[i].key] == i)
    && (forall k :: k in s.index ==> s.index[k] < |s.heap| && s.heap[s.index[k]].key == k)
  }

  /** A well-formed heap dictionary: linked and in min-max order, as the
      test suite's invariant check states it. */
  ghost predicate Valid<K>(s: HeapDict<K>)
  {
    Linked(s) && LocallyOrdered(s.heap)
  }

  /** The dictionary the structure denotes: key to priority. */
  ghost function Items<K>(s: HeapDict<K>): map<K, int>
    requires Linked(s)
  {
    map k | k in s.index :: s.heap[s.index[k]].prio
  }

  /** Keys of a linked structure are pairwise distinct across slots. */
  lemma LinkedKeysDistinct<K>(s: HeapDict<K>)
    requires Linked(s)
    ensures forall i, j :: 0 <= i < j < |s.heap| ==> s.heap[i].key != s.heap[j].key
  {
  }

  /** The array after exchanging slots i and j. */
  function Exchange<K>(h: seq<Entry<K>>, i: nat, j: nat): (r: seq<Entry<K>>)
    requires i < |h| && j < |h|
    ensures |r| == |h|
    ensures r[i] == h[j] && r[j] == h[i]
    ensures forall k :: 0 <= k < |h| && k != i && k != j ==> r[k] == h[k]
    ensures multiset(r) == multiset(h)
  {
    var r := h[i := h[j]][j := h[i]];
    assert multiset(h[i := h[j]]) == multiset(h) - multiset{h[i]} + multiset{h[j]};
    r
  }

  lemma SwapLinked<K>(s: HeapDict<K>, i: nat, j: nat)
    requires Linked(s) && i < |s.heap| && j < |s.heap|
    ensures var h := Exchange(s.heap, i, j);
            var t := HeapDict(h, s.index[s.heap[j].key := i][s.heap[i].key := j]);
            Linked(t) && Items(t) == Items(s)
  {
    var h := Exchange(s.heap, i, j);
    var ki, kj := s.heap[i].key, s.heap[j].key;
    var t := HeapDict(h, s.index[kj := i][ki := j]);
    LinkedKeysDistinct(s);
    assert t.index.Keys == s.index.Keys;
    forall p | 0 <= p < |h|
      ensures h[p].key in t.index && t.index[h[p].key] == p
    {
      if p != i && p != j {
        assert h[p] == s.heap[p];
        assert s.heap[p].key != ki && s.heap[p].key != kj;
      }
    }
    forall k | k in t.index
      ensures t.index[k] < |h| && h[t.index[k]].key == k
    {
      if k != ki && k != kj {
        assert t.index[k] == s.index[k];
        assert s.index[k] != i && s.index[k] != j;
      }
    }
    assert Linked(t);
    forall k | k in t.index
      ensures h[t.index[k]] == s.heap[s.index[k]]
    {
    }
  }

  /** _swap: exchanges slots i and j and rewrites both moved records' slot
      numbers. Nothing else moves, the denoted dictionary and the bag of
      records are unchanged, and array and index stay linked. */
  function Swap<K>(s: HeapDict<K>, i: nat, j: nat): (t: HeapDict<K>)
    requires Linked(s) && i < |s.heap| && j < |s.heap|
    ensures t.heap == Exchange(s.heap, i, j)
    ensures t.heap[i] == s.heap[j] && t.heap[j] == s.heap[i]
    ensures |t.heap| == |s.heap|
    ensures forall k :: 0 <= k < |t.heap| && k != i && k != j ==> t.heap[k] == s.heap[k]
    ensures Linked(t)
    ensures t.index[s.heap[j].key] == i && t.index[s.heap[i].key] == j
    ensures Items(t) == Items(s)
    ensures multiset(t.heap) == multiset(s.heap)
  {
    SwapLinked(s, i, j);
    HeapDict(Exchange(s.heap, i, j), s.index[s.heap[j].key := i][s.heap[i].key := j])
  }
}
