/** The sorting routine of the C library, which the source calls with a comparison
    function: all that is used of it is that it permutes and sorts. */
module Sorting {

  ghost predicate TotalOrder<T(!new)>(le: (T, T) -> bool) {
    && (forall x, y :: le(x, y) || le(y, x))
    && (forall x, y, z :: le(x, y) && le(y, z) ==> le(x, z))
  }

  ghost predicate SortedBy<T>(le: (T, T) -> bool, s: seq<T>) {
    forall i, j | 0 <= i < j < |s| :: le(s[i], s[j])
  }

  method QSort<T(!new)>(s: seq<T>, le: (T, T) -> bool) returns (r: seq<T>)
    requires TotalOrder(le)
    ensures multiset(r) == multiset(s) && SortedBy(le, r)
  {
    r := [];
    for i := 0 to |s|
      invariant multiset(r) == multiset(s[..i]) && SortedBy(le, r)
    {
      assert s[..i + 1] == s[..i] + [s[i]];
      r := Insert(r, s[i], le);
    }
    assert s[..|s|] == s;
  }

  method Insert<T(!new)>(s: seq<T>, x: T, le: (T, T) -> bool) returns (r: seq<T>)
    requires TotalOrder(le) && SortedBy(le, s)
    ensures multiset(r) == multiset(s) + multiset{x} && SortedBy(le, r)
  {
    var j := |s|;
    while j > 0 && !le(s[j - 1], x)
      invariant 0 <= j <= |s|
      invariant forall k | j <= k < |s| :: le(x, s[k])
    {
      j := j - 1;
    }
    forall k | 0 <= k < j ensures le(s[k], x) {
      if k < j - 1 { assert le(s[k], s[j - 1]); }
    }
    assert s == s[..j] + s[j..];
    r := s[..j] + [x] + s[j..];
    InsertedSorted(s, x, le, j);
  }

  lemma InsertedSorted<T(!new)>(s: seq<T>, x: T, le: (T, T) -> bool, j: nat)
    requires SortedBy(le, s) && j <= |s|
    requires (forall k | 0 <= k < j :: le(s[k], x)) && (forall k | j <= k < |s| :: le(x, s[k]))
    ensures SortedBy(le, s[..j] + [x] + s[j..])
  {
    var r := s[..j] + [x] + s[j..];
    forall p, q | 0 <= p < q < |r| ensures le(r[p], r[q]) {
      assert r[p] == if p < j then s[p] else if p == j then x else s[p - 1];
      assert r[q] == if q < j then s[q] else if q == j then x else s[q - 1];
    }
  }

  /** Numbers in a fixed order: shorter sequences first, then the first difference. */
  predicate LexLe(x: seq<nat>, y: seq<nat>)
    requires |x| == |y|
  {
    x == [] || x[0] < y[0] || (x[0] == y[0] && LexLe(x[1..], y[1..]))
  }

  predicate SizeLexLe(x: seq<nat>, y: seq<nat>) {
    |x| < |y| || (|x| == |y| && LexLe(x, y))
  }

  lemma {:induction false} LexTotal(x: seq<nat>, y: seq<nat>)
    requires |x| == |y|
    ensures LexLe(x, y) || LexLe(y, x)
    ensures LexLe(x, y) && LexLe(y, x) ==> x == y
  {
    if x != [] {
      LexTotal(x[1..], y[1..]);
      assert x == [x[0]] + x[1..] && y == [y[0]] + y[1..];
    }
  }

  lemma {:induction false} LexTransitive(x: seq<nat>, y: seq<nat>, z: seq<nat>)
    requires |x| == |y| == |z| && LexLe(x, y) && LexLe(y, z)
    ensures LexLe(x, z)
  {
    if x != [] && x[0] == y[0] == z[0] {
      LexTransitive(x[1..], y[1..], z[1..]);
    }
  }

  lemma SizeLexOrder()
    ensures TotalOrder(SizeLexLe)
  {
    forall x: seq<nat>, y: seq<nat> ensures SizeLexLe(x, y) || SizeLexLe(y, x) {
      if |x| == |y| { LexTotal(x, y); }
    }
    forall x: seq<nat>, y: seq<nat>, z: seq<nat> | SizeLexLe(x, y) && SizeLexLe(y, z) ensures SizeLexLe(x, z) {
      if |x| == |y| == |z| { LexTransitive(x, y, z); }
    }
  }

  /** Skipping what equals its predecessor leaves each member of a sorted sequence once. */
  method DropRepeats(s: seq<seq<nat>>) returns (r: seq<seq<nat>>)
    requires SortedBy(SizeLexLe, s)
    ensures forall x :: x in r <==> x in s
    ensures forall i, j | 0 <= i < j < |r| :: r[i] != r[j]
  {
    r := [];
    for i := 0 to |s|
      invariant forall x :: x in r <==> x in s[..i]
      invariant forall j, k | 0 <= j < k < |r| :: r[j] != r[k]
    {
      assert s[..i + 1] == s[..i] + [s[i]];
      if i > 0 && s[i - 1] == s[i] {
        assert s[i - 1] in s[..i];
        continue;
      }
      if s[i] in s[..i] {
        var j :| 0 <= j < i && s[j] == s[i];
        if j < i - 1 {
          assert SizeLexLe(s[j], s[i - 1]) && SizeLexLe(s[i - 1], s[i]);
          LexTotal(s[i], s[i - 1]);
        }
        assert false;
      }
      r := r + [s[i]];
    }
    assert s[..|s|] == s;
  }

  lemma SameMembers<T>(s: seq<T>, r: seq<T>)
    requires multiset(s) == multiset(r)
    ensures forall x :: x in s <==> x in r
  {
    forall x ensures x in s <==> x in r {
      assert x in s <==> x in multiset(s);
      assert x in r <==> x in multiset(r);
    }
  }
}
