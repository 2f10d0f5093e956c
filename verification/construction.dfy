/** Construction from pairs that may repeat a key. The class documentation
    promises dictionary semantics: a repeated key keeps its last priority
    and appears once. The enumerate loop of __init__ as written appends one
    record per pair but lets later pairs overwrite the key index, so a
    repeated key leaves a record the index no longer reaches. This module
    models that loop as written, exhibits the broken case, and defines the
    construction that keeps the promise by folding repeated keys first. */
module Construction {
  import opened MinMaxOrder
  import opened HeapState
  import opened HeapDictOps

  /** The enumerate loop of __init__ as written: record j goes to slot j,
      and the key index entry of its key is overwritten with j. */
  function EnumerateAsWritten<K>(pairs: seq<(K, int)>): (t: HeapDict<K>)
    ensures |t.heap| == |pairs|
    ensures forall j :: 0 <= j < |pairs| ==> t.heap[j] == Entry(pairs[j].1, pairs[j].0)
    ensures t.index.Keys == PairsMap(pairs).Keys
  {
    if |pairs| == 0 then HeapDict([], map[])
    else
      var n := |pairs| - 1;
      var t := EnumerateAsWritten(pairs[..n]);
      HeapDict(t.heap + [Entry(pairs[n].1, pairs[n].0)], t.index[pairs[n].0 := n])
  }

  /** Two pairs with the same key: the loop leaves two records but one index
      entry, so the array and the index no longer agree, len() reports two
      items for a one-key dictionary, and the stale first record (priority
      1, smaller than the key's recorded priority 3) is still in the heap. */
  lemma RepeatedKeyBreaksLink()
    ensures var t := EnumerateAsWritten([(7, 1), (7, 3)]);
            && |t.heap| == 2 && |t.index| == 1
            && !Linked(t)
            && t.heap[0] == Entry(1, 7) && t.index[7] == 1
            && PairsMap([(7, 1), (7, 3)]) == map[7 := 3]
  {
    var pairs: seq<(int, int)> := [(7, 1), (7, 3)];
    assert pairs[..1] == [(7, 1)] && |pairs[..1][..0]| == 0;
    var t := EnumerateAsWritten(pairs);
    assert t.index == map[7 := 0][7 := 1];
  }

  /** Position of key k among the pairs, or -1. */
  function FindKey<K(==)>(d: seq<(K, int)>, k: K): (r: int)
    ensures -1 <= r < |d|
    ensures r >= 0 ==> d[r].0 == k
    ensures r < 0 ==> forall j :: 0 <= j < |d| ==> d[j].0 != k
  {
    if |d| == 0 then -1
    else if d[|d| - 1].0 == k then |d| - 1
    else FindKey(d[..|d| - 1], k)
  }

  /** Folds repeated keys: each key once, at its first position, with its
      last priority. */
  function Dedup<K(==)>(pairs: seq<(K, int)>): (d: seq<(K, int)>)
    ensures DistinctKeys(d)
    ensures PairsMap(d) == PairsMap(pairs)
    ensures |d| <= |pairs|
  {
    if |pairs| == 0 then []
    else
      var n := |pairs| - 1;
      var d := Dedup(pairs[..n]);
      var (k, v) := pairs[n];
      var j := FindKey(d, k);
      if j >= 0 then
        ReplaceValue(d, j, v);
        d[j := (k, v)]
      else
        assert DistinctKeys(d + [(k, v)]) by {
          forall a, b | 0 <= a < b < |d| + 1
            ensures (d + [(k, v)])[a].0 != (d + [(k, v)])[b].0
          {
            if b == |d| {
              assert d[a].0 != k;
            }
          }
        }
        assert (d + [(k, v)])[..|d|] == d;
        d + [(k, v)]
  }

  /** Overwriting the priority of one pair of a key-distinct sequence
      overwrites that key's priority in the dictionary it denotes. */
  lemma {:induction false} ReplaceValue<K>(d: seq<(K, int)>, j: nat, v: int)
    requires DistinctKeys(d) && j < |d|
    ensures DistinctKeys(d[j := (d[j].0, v)])
    ensures PairsMap(d[j := (d[j].0, v)]) == PairsMap(d)[d[j].0 := v]
    decreases |d|
  {
    var d' := d[j := (d[j].0, v)];
    var n := |d| - 1;
    assert forall a :: 0 <= a < |d| ==> d'[a].0 == d[a].0;
    if j == n {
      assert d'[..n] == d[..n];
    } else {
      assert d'[..n] == d[..n][j := (d[j].0, v)];
      ReplaceValue(d[..n], j, v);
      assert d[n].0 != d[j].0;
    }
  }

  /** __init__ with dictionary semantics for repeated keys: a well-formed
      heap dictionary whose items are the pairs with later pairs winning,
      holding one record per distinct key. */
  method FromAnyPairs<K>(pairs: seq<(K, int)>) returns (t: HeapDict<K>)
    ensures Valid(t)
    ensures Items(t) == PairsMap(pairs)
    ensures Len(t) == |PairsMap(pairs)|
  {
    t := FromPairs(Dedup(pairs));
  }
}
