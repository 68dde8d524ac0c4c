/** Counting sort by prefix sums: stable, in increasing order of the keys. */
module BucketSort {
  import opened FiniteSets

  /** How many of the first n keys are smaller than k. */
  ghost function Smaller(keys: seq<nat>, n: nat, k: nat): nat
    requires n <= |keys|
  {
    if n == 0 then 0 else Smaller(keys, n - 1, k) + (if keys[n - 1] < k then 1 else 0)
  }

  ghost function Equal(keys: seq<nat>, n: nat, k: nat): nat
    requires n <= |keys|
  {
    if n == 0 then 0 else Equal(keys, n - 1, k) + (if keys[n - 1] == k then 1 else 0)
  }

  lemma {:induction false} NextBucket(keys: seq<nat>, n: nat, k: nat)
    requires n <= |keys|
    ensures Smaller(keys, n, k + 1) == Smaller(keys, n, k) + Equal(keys, n, k)
    ensures Smaller(keys, n, 0) == 0 && Smaller(keys, n, k) <= n
  {
    if n > 0 { NextBucket(keys, n - 1, k); }
  }

  lemma {:induction false} SmallerMonotone(keys: seq<nat>, n: nat, k: nat, l: nat)
    requires n <= |keys| && k <= l
    ensures Smaller(keys, n, k) <= Smaller(keys, n, l)
  {
    if n > 0 { SmallerMonotone(keys, n - 1, k, l); }
  }

  lemma {:induction false} EqualMonotone(keys: seq<nat>, i: nat, j: nat)
    requires i < j <= |keys|
    ensures Equal(keys, i, keys[i]) + 1 <= Equal(keys, j, keys[i])
  {
    if j > i + 1 { EqualMonotone(keys, i, j - 1); }
  }

  /** Where index i goes. */
  ghost function Place(keys: seq<nat>, i: nat): nat
    requires i < |keys|
  {
    Smaller(keys, |keys|, keys[i]) + Equal(keys, i, keys[i])
  }

  /** Places are ordered by key, and by index among equal keys. */
  lemma PlaceOrder(keys: seq<nat>, i: nat, j: nat)
    requires i < |keys| && j < |keys| && (keys[i] < keys[j] || (keys[i] == keys[j] && i < j))
    ensures Place(keys, i) < Place(keys, j) < |keys|
  {
    PlaceInBucket(keys, i);
    PlaceInBucket(keys, j);
    if keys[i] < keys[j] {
      SmallerMonotone(keys, |keys|, keys[i] + 1, keys[j]);
    } else {
      EqualMonotone(keys, i, j);
    }
  }

  lemma PlaceInBucket(keys: seq<nat>, i: nat)
    requires i < |keys|
    ensures Smaller(keys, |keys|, keys[i]) <= Place(keys, i) < Smaller(keys, |keys|, keys[i] + 1) <= |keys|
  {
    EqualMonotone(keys, i, |keys|);
    NextBucket(keys, |keys|, keys[i]);
    NextBucket(keys, |keys|, keys[i] + 1);
  }

  /** The order lists every index once, keys increasing. */
  ghost predicate IsSortedOrder(keys: seq<nat>, order: seq<nat>) {
    && |order| == |keys| && NoRepeats(order) && (forall p | 0 <= p < |order| :: order[p] < |keys|)
    && (forall i: nat | i < |keys| :: i in order)
    && forall p, q | 0 <= p <= q < |order| :: keys[order[p]] <= keys[order[q]]
  }

  method Sort(keys: seq<nat>, maxKey: nat) returns (order: seq<nat>)
    requires forall i | 0 <= i < |keys| :: keys[i] <= maxKey
    ensures IsSortedOrder(keys, order)
  {
    hide Smaller;
    var n := |keys|;
    var bucket := CountPrefixes(keys, maxKey);
    var placed := new nat[n](p => n);
    for i := 0 to n
      invariant forall k | 0 <= k <= maxKey :: bucket[k] == Smaller(keys, n, k) + Equal(keys, i, k)
      invariant forall j | 0 <= j < i :: Place(keys, j) < n && placed[Place(keys, j)] == j
    {
      PlaceInBucket(keys, i);
      forall j | 0 <= j < i ensures Place(keys, j) != Place(keys, i) {
        if keys[i] < keys[j] { PlaceOrder(keys, i, j); } else { PlaceOrder(keys, j, i); }
      }
      placed[bucket[keys[i]]] := i;
      bucket[keys[i]] := bucket[keys[i]] + 1;
    }
    order := placed[..];
    AllPlaced(keys, order);
  }

  /** Distinct places for all indices leave no place empty. */
  lemma AllPlaced(keys: seq<nat>, order: seq<nat>)
    requires |order| == |keys| && forall j | 0 <= j < |keys| :: Place(keys, j) < |keys| && order[Place(keys, j)] == j
    ensures IsSortedOrder(keys, order)
  {
    var n := |keys|;
    var places := seq(n, j requires 0 <= j < n => Place(keys, j));
    forall i, j | 0 <= i < j < n ensures places[i] != places[j] {
      if keys[j] < keys[i] { PlaceOrder(keys, j, i); } else { PlaceOrder(keys, i, j); }
    }
    NoRepeatsCard(places);
    RangeCard(n);
    SubsetCard(ToSet(places), Range(n));
    forall p | 0 <= p < n ensures order[p] < n && Place(keys, order[p]) == p {
      assert p in ToSet(places);
      var j :| 0 <= j < n && places[j] == p;
    }
    forall i: nat | i < n ensures i in order {
      assert order[Place(keys, i)] == i;
    }
    forall p, q | 0 <= p <= q < n ensures keys[order[p]] <= keys[order[q]] {
      if keys[order[q]] < keys[order[p]] { PlaceOrder(keys, order[q], order[p]); }
    }
    forall p, q | 0 <= p < q < n ensures order[p] != order[q] {
      assert Place(keys, order[p]) == p && Place(keys, order[q]) == q;
    }
  }

  /** Counts the keys, then turns the counts into starting places. */
  method CountPrefixes(keys: seq<nat>, maxKey: nat) returns (bucket: array<nat>)
    requires forall i | 0 <= i < |keys| :: keys[i] <= maxKey
    ensures fresh(bucket) && bucket.Length == maxKey + 1
    ensures forall k | 0 <= k <= maxKey :: bucket[k] == Smaller(keys, |keys|, k)
  {
    bucket := new nat[maxKey + 1](k => 0);
    for i := 0 to |keys|
      invariant forall k | 0 <= k <= maxKey :: bucket[k] == Equal(keys, i, k)
    {
      bucket[keys[i]] := bucket[keys[i]] + 1;
    }
    var acc := 0;
    NextBucket(keys, |keys|, 0);
    for k := 0 to maxKey + 1
      invariant acc == Smaller(keys, |keys|, k)
      invariant forall l | 0 <= l <= maxKey ::
          bucket[l] == if l < k then Smaller(keys, |keys|, l) else Equal(keys, |keys|, l)
    {
      NextBucket(keys, |keys|, k);
      var b := bucket[k];
      bucket[k] := acc;
      acc := acc + b;
    }
  }
}
