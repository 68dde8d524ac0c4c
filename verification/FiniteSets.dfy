/** Counting in finite sets of naturals. */
module FiniteSets {

  predicate IsIndex(x: nat, n: nat) {
    x < n
  }

  /** The universe {0, ..., n-1}. */
  function Range(n: nat): (r: set<nat>)
    ensures forall x: nat :: x in r <==> x < n
  {
    set x: nat | x < n && IsIndex(x, n)
  }

  lemma {:induction false} RangeCard(n: nat)
    ensures |Range(n)| == n
  {
    if n == 0 {
      assert Range(0) == {};
    } else {
      RangeCard(n - 1);
      assert Range(n) == Range(n - 1) + {n - 1};
    }
  }

  function ToSet(s: seq<nat>): set<nat> {
    set x | x in s
  }

  lemma ToSetAppend(s: seq<nat>, x: nat)
    ensures ToSet(s + [x]) == ToSet(s) + {x}
    ensures forall y :: y in s + [x] <==> y in s || y == x
  {}

  lemma SubsetCard(s: set<nat>, t: set<nat>)
    requires s <= t
    ensures |s| <= |t| && (s != t ==> |s| < |t|)
  {
    assert t == s + (t - s);
    if s != t { assert t - s != {}; }
  }

  ghost predicate NoRepeats(f: seq<nat>) {
    forall i, k | 0 <= i < k < |f| :: f[i] != f[k]
  }

  lemma {:induction false} NoRepeatsCard(f: seq<nat>)
    requires NoRepeats(f)
    ensures |ToSet(f)| == |f|
  {
    if f != [] {
      var rest := f[..|f| - 1];
      NoRepeatsCard(rest);
      assert ToSet(f) == ToSet(rest) + {f[|f| - 1]};
    }
  }

  /** A sequence without repetitions is no longer than the universe of its elements. */
  lemma Pigeonhole(f: seq<nat>, m: nat)
    requires NoRepeats(f) && forall i | 0 <= i < |f| :: f[i] < m
    ensures |f| <= m
  {
    NoRepeatsCard(f);
    RangeCard(m);
    SubsetCard(ToSet(f), Range(m));
  }

  lemma RemoveOne(s: set<nat>, done: set<nat>, c: nat)
    requires c !in done
    ensures |s - (done + {c})| == |s - done| - (if c in s then 1 else 0)
  {
    if c in s {
      assert s - done == (s - (done + {c})) + {c};
    } else {
      assert s - done == s - (done + {c});
    }
  }

  lemma NoneMissing(s: set<nat>, done: set<nat>)
    ensures |s - done| == 0 <==> s <= done
  {
    if |s - done| == 0 {
      assert s - done == {};
      forall x | x in s ensures x in done {
        assert x !in s - done;
      }
    }
  }

  ghost predicate Distinct(ext: seq<set<nat>>) {
    forall i, j | 0 <= i < j < |ext| :: ext[i] != ext[j]
  }
}
