/** Sorting by repeated extraction: popping the minimum until the dictionary
    is empty yields every item once, in non-decreasing priority order, and
    popping the maximum yields them in non-increasing order. */
module Drain {
  import opened MinMaxOrder
  import opened HeapState
  import opened HeapDictOps

  predicate NonDecreasing(xs: seq<int>)
  {
    forall a, b :: 0 <= a < b < |xs| ==> xs[a] <= xs[b]
  }

  predicate NonIncreasing(xs: seq<int>)
  {
    forall a, b :: 0 <= a < b < |xs| ==> xs[a] >= xs[b]
  }

  /** The extracted keys are pairwise distinct, are exactly the keys of m,
      and each comes with its priority in m. */
  ghost predicate ListsItems<K>(m: map<K, int>, keys: seq<K>, prios: seq<int>)
  {
    && |keys| == |prios| == |m|
    && (forall a, b :: 0 <= a < b < |keys| ==> keys[a] != keys[b])
    && (forall a :: 0 <= a < |keys| ==> keys[a] in m && m[keys[a]] == prios[a])
    && (forall k :: k in m ==> k in keys)
  }

  /** Bookkeeping of an extraction loop that has taken keys/prios out of
      the dictionary m and left rest: rest is exactly m without those keys. */
  ghost predicate Progress<K>(m: map<K, int>, rest: map<K, int>, keys: seq<K>, prios: seq<int>)
  {
    && |keys| == |prios| && |keys| + |rest| == |m|
    && (forall k :: k in rest ==> k in m && k !in keys && rest[k] == m[k])
    && (forall k :: k in m && k !in keys ==> k in rest)
    && (forall a, b :: 0 <= a < b < |keys| ==> keys[a] != keys[b])
    && (forall a :: 0 <= a < |keys| ==> keys[a] in m && m[keys[a]] == prios[a])
  }

  /** Taking one more item out of rest keeps the bookkeeping. */
  lemma ProgressStep<K>(m: map<K, int>, rest: map<K, int>, keys: seq<K>, prios: seq<int>, k: K)
    requires Progress(m, rest, keys, prios) && k in rest
    ensures Progress(m, rest - {k}, keys + [k], prios + [rest[k]])
  {
    var keys', prios' := keys + [k], prios + [rest[k]];
    forall a | 0 <= a < |keys'|
      ensures keys'[a] in m && m[keys'[a]] == prios'[a]
    {
      if a < |keys| {
        assert keys'[a] == keys[a] && prios'[a] == prios[a];
      }
    }
  }

  /** Once nothing is left, the extracted lists are the items of m. */
  lemma ProgressDone<K>(m: map<K, int>, rest: map<K, int>, keys: seq<K>, prios: seq<int>)
    requires Progress(m, rest, keys, prios) && |rest| == 0
    ensures ListsItems(m, keys, prios)
  {
    forall k | k in m
      ensures k in keys
    {
      assert k !in rest;
    }
  }

  /** Repeated pop_min_item until the dictionary is empty. */
  method DrainMin<K>(s: HeapDict<K>) returns (keys: seq<K>, prios: seq<int>)
    requires Valid(s)
    ensures ListsItems(Items(s), keys, prios)
    ensures NonDecreasing(prios)
  {
    var t := s;
    keys, prios := [], [];
    assert Len(s) == |s.heap|;
    while |t.heap| > 0
      invariant Valid(t) && Progress(Items(s), Items(t), keys, prios)
      invariant Between(prios, [], Items(t))
      decreases |t.heap|
    {
      var t', item := PopMinItem(t);
      BetweenAfterMin(prios, [], Items(t), item.0);
      ProgressStep(Items(s), Items(t), keys, prios, item.0);
      t, keys, prios := t', keys + [item.0], prios + [item.1];
    }
    assert Len(t) == |t.heap|;
    ProgressDone(Items(s), Items(t), keys, prios);
  }

  /** Repeated pop_max_item until the dictionary is empty. */
  method DrainMax<K>(s: HeapDict<K>) returns (keys: seq<K>, prios: seq<int>)
    requires Valid(s)
    ensures ListsItems(Items(s), keys, prios)
    ensures NonIncreasing(prios)
  {
    var t := s;
    keys, prios := [], [];
    assert Len(s) == |s.heap|;
    while |t.heap| > 0
      invariant Valid(t) && Progress(Items(s), Items(t), keys, prios)
      invariant Between([], prios, Items(t))
      decreases |t.heap|
    {
      var t', item := PopMaxItem(t);
      BetweenAfterMax([], prios, Items(t), item.0);
      ProgressStep(Items(s), Items(t), keys, prios, item.0);
      t, keys, prios := t', keys + [item.0], prios + [item.1];
    }
    assert Len(t) == |t.heap|;
    ProgressDone(Items(s), Items(t), keys, prios);
  }

  function Reverse(xs: seq<int>): (r: seq<int>)
    ensures |r| == |xs|
    ensures forall a :: 0 <= a < |xs| ==> r[a] == xs[|xs| - 1 - a]
  {
    seq(|xs|, a requires 0 <= a < |xs| => xs[|xs| - 1 - a])
  }

  /** Reversing a sequence keeps its elements. */
  lemma {:induction false} ReverseMultiset(xs: seq<int>)
    ensures multiset(Reverse(xs)) == multiset(xs)
    decreases |xs|
  {
    if |xs| > 0 {
      var n := |xs| - 1;
      ReverseMultiset(xs[..n]);
      assert Reverse(xs) == [xs[n]] + Reverse(xs[..n]);
      assert xs == xs[..n] + [xs[n]];
    }
  }

  /** Minimums taken from the front and maximums taken from the back meet
      in a sorted sequence. */
  lemma JoinSorted(mins: seq<int>, maxs: seq<int>)
    requires NonDecreasing(mins) && NonIncreasing(maxs)
    requires forall a, b :: 0 <= a < |mins| && 0 <= b < |maxs| ==> mins[a] <= maxs[b]
    ensures NonDecreasing(mins + Reverse(maxs))
  {
    var r := Reverse(maxs);
    var xs := mins + r;
    forall a, b | 0 <= a < b < |xs|
      ensures xs[a] <= xs[b]
    {
      if b < |mins| {
      } else if a < |mins| {
        assert xs[b] == maxs[|maxs| - 1 - (b - |mins|)];
      } else {
        assert xs[a] == maxs[|maxs| - 1 - (a - |mins|)];
        assert xs[b] == maxs[|maxs| - 1 - (b - |mins|)];
      }
    }
  }

  /** The state of a mixed extraction: minimums so far ascend, maximums so
      far descend, and the remaining priorities lie between the two. */
  ghost predicate Between<K>(mins: seq<int>, maxs: seq<int>, m: map<K, int>)
  {
    && NonDecreasing(mins) && NonIncreasing(maxs)
    && (forall a, b :: 0 <= a < |mins| && 0 <= b < |maxs| ==> mins[a] <= maxs[b])
    && (forall a, k :: 0 <= a < |mins| && k in m ==> mins[a] <= m[k])
    && (forall b, k :: 0 <= b < |maxs| && k in m ==> m[k] <= maxs[b])
  }

  /** Taking out a smallest remaining item extends the minimums. */
  lemma BetweenAfterMin<K>(mins: seq<int>, maxs: seq<int>, m: map<K, int>, k: K)
    requires Between(mins, maxs, m) && k in m
    requires forall k' :: k' in m ==> m[k] <= m[k']
    ensures Between(mins + [m[k]], maxs, m - {k})
  {
  }

  /** Taking out a largest remaining item extends the maximums. */
  lemma BetweenAfterMax<K>(mins: seq<int>, maxs: seq<int>, m: map<K, int>, k: K)
    requires Between(mins, maxs, m) && k in m
    requires forall k' :: k' in m ==> m[k'] <= m[k]
    ensures Between(mins, maxs + [m[k]], m - {k})
  {
  }

  /** One pop of the mixed extraction, recording the popped priority with
      the minimums or the maximums. */
  method PopEither<K>(s: HeapDict<K>, popMax: bool, mins: seq<int>, maxs: seq<int>)
    returns (t: HeapDict<K>, item: (K, int), mins': seq<int>, maxs': seq<int>)
    requires Valid(s) && |s.heap| > 0 && Between(mins, maxs, Items(s))
    ensures Valid(t) && item.0 in Items(s) && Items(s)[item.0] == item.1
    ensures Items(t) == Items(s) - {item.0} && |t.heap| == |s.heap| - 1
    ensures Between(mins', maxs', Items(t))
    ensures multiset(mins' + maxs') == multiset(mins + maxs) + multiset{item.1}
  {
    if popMax {
      t, item := PopMaxItem(s);
      BetweenAfterMax(mins, maxs, Items(s), item.0);
      mins', maxs' := mins, maxs + [item.1];
    } else {
      t, item := PopMinItem(s);
      BetweenAfterMin(mins, maxs, Items(s), item.0);
      mins', maxs' := mins + [item.1], maxs;
      assert mins' + maxs' == mins + [item.1] + maxs;
    }
  }

  /** Pops the minimum where popMax is false and the maximum where it is
      true, one pop per record. The minimums followed by the maximums in
      reverse come out sorted, and together the pops list every item once. */
  method DrainMixed<K>(s: HeapDict<K>, popMax: seq<bool>) returns (keys: seq<K>, prios: seq<int>, mins: seq<int>, maxs: seq<int>)
    requires Valid(s) && |popMax| == |s.heap|
    ensures ListsItems(Items(s), keys, prios)
    ensures multiset(mins + maxs) == multiset(prios)
    ensures NonDecreasing(mins + Reverse(maxs))
    ensures multiset(mins + Reverse(maxs)) == multiset(prios)
  {
    var t := s;
    keys, prios, mins, maxs := [], [], [], [];
    assert Len(s) == |s.heap|;
    var n := 0;
    while n < |popMax|
      invariant n <= |popMax| && |keys| == n
      invariant Valid(t) && Progress(Items(s), Items(t), keys, prios)
      invariant multiset(mins + maxs) == multiset(prios)
      invariant Between(mins, maxs, Items(t))
    {
      assert Len(t) == |t.heap|;
      var t', item;
      t', item, mins, maxs := PopEither(t, popMax[n], mins, maxs);
      ProgressStep(Items(s), Items(t), keys, prios, item.0);
      t, keys, prios := t', keys + [item.0], prios + [item.1];
      n := n + 1;
    }
    assert Len(t) == |t.heap|;
    ProgressDone(Items(s), Items(t), keys, prios);
    JoinSorted(mins, maxs);
    ReverseMultiset(maxs);
    assert multiset(mins + Reverse(maxs)) == multiset(mins) + multiset(Reverse(maxs));
  }
}
