/** Candidate lists and the level selector. The selector is Python's min or
    max keyed by priority: it scans left to right and replaces its current
    pick only on a strictly better priority, so among ties the first listed
    candidate wins. Every caller lists the current slot first, so a tie never
    causes a swap. */
module Selector {
  import opened IndexMath
  import opened MinMaxOrder

  function Min(a: nat, b: nat): nat
  {
    if a <= b then a else b
  }

  /** The slots of range(a, b), in order. */
  function Range(a: nat, b: nat): (r: seq<nat>)
    ensures |r| == if a <= b then b - a else 0
    ensures forall k :: 0 <= k < |r| ==> r[k] == a + k
    ensures forall c :: a <= c < b ==> c in r
    decreases b - a
  {
    if a >= b then [] else [a] + Range(a + 1, b)
  }

  /** Slot i followed by its children that exist in an array of length n. */
  function WithChildren(n: nat, i: nat): (r: seq<nat>)
    requires i < n
    ensures |r| > 0 && r[0] == i
    ensures forall c :: c in r ==> c < n && (c == i || 2 * i + 1 <= c <= 2 * i + 2)
    ensures forall c :: 2 * i + 1 <= c <= 2 * i + 2 && c < n ==> c in r
  {
    [i] + Range(2 * i + 1, Min(n, 2 * i + 3))
  }

  /** Slot i followed by its grandchildren that exist in an array of length n. */
  function WithGrandchildren(n: nat, i: nat): (r: seq<nat>)
    requires i < n
    ensures |r| > 0 && r[0] == i
    ensures forall c :: c in r ==> c < n && (c == i || 4 * i + 3 <= c <= 4 * i + 6)
    ensures forall c :: 4 * i + 3 <= c <= 4 * i + 6 && c < n ==> c in r
  {
    [i] + Range(4 * i + 3, Min(n, 4 * i + 7))
  }

  /** Position of the selector's pick among the first n candidates: the
      scan keeps its pick unless a later candidate is strictly better. */
  function SelectPos<K>(h: seq<Entry<K>>, minLevel: bool, cands: seq<nat>, n: nat): (p: nat)
    requires 0 < n <= |cands| && forall k :: 0 <= k < |cands| ==> cands[k] < |h|
    ensures p < n
    ensures forall k :: 0 <= k < n ==> Dom(minLevel, h[cands[p]].prio, h[cands[k]].prio)
    ensures forall q :: 0 <= q < p ==> !Dom(minLevel, h[cands[q]].prio, h[cands[p]].prio)
    decreases n
  {
    if n == 1 then 0
    else
      var b := SelectPos(h, minLevel, cands, n - 1);
      if Dom(minLevel, h[cands[b]].prio, h[cands[n - 1]].prio) then b else n - 1
  }

  /** The selector applied to a candidate list (Python's min or max keyed by
      priority): a candidate no other candidate strictly beats in the level's
      direction, and the first such one. */
  function Select<K>(h: seq<Entry<K>>, minLevel: bool, cands: seq<nat>): (r: nat)
    requires |cands| > 0 && forall k :: 0 <= k < |cands| ==> cands[k] < |h|
    ensures r in cands
    ensures forall c :: c in cands ==> Dom(minLevel, h[r].prio, h[c].prio)
    ensures exists p :: 0 <= p < |cands| && cands[p] == r &&
              forall q :: 0 <= q < p ==> !Dom(minLevel, h[cands[q]].prio, h[r].prio)
    ensures r != cands[0] ==> !Dom(minLevel, h[cands[0]].prio, h[r].prio)
  {
    var p := SelectPos(h, minLevel, cands, |cands|);
    cands[p]
  }
}
