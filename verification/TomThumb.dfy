/** The Tom Thumb merge: two sorted lists, one of objects and one of attributes, walked with
    two cursors, become one list that extends the order of the concepts. */
module TomThumb {
  import opened FiniteSets
  import opened MaxMod
  import Derivation

  /** A context given by both tables, without equal rows and without equal columns. */
  ghost predicate Clarified(rows: seq<set<nat>>, cols: seq<set<nat>>) {
    && (forall o | 0 <= o < |rows| :: rows[o] <= Range(|cols|))
    && (forall a | 0 <= a < |cols| :: cols[a] <= Range(|rows|))
    && (forall o: nat, a: nat | o < |rows| && a < |cols| :: a in rows[o] <==> o in cols[a])
    && Distinct(rows) && Distinct(cols)
  }

  /** The attributes whose objects include those of a: the intent of a's concept. */
  ghost function Dom(cols: seq<set<nat>>, a: nat): set<nat>
    requires a < |cols|
  {
    set b: nat | b < |cols| && cols[a] <= cols[b]
  }

  /** The intent of an item, which is an object or an attribute. */
  ghost function Value(rows: seq<set<nat>>, cols: seq<set<nat>>, isExtent: bool, e: nat): set<nat>
    requires e < if isExtent then |rows| else |cols|
  {
    if isExtent then rows[e] else Dom(cols, e)
  }

  lemma DomInside(rows: seq<set<nat>>, cols: seq<set<nat>>, a: nat, o: nat)
    requires Clarified(rows, cols) && a < |cols| && o < |rows|
    ensures Dom(cols, a) <= rows[o] <==> a in rows[o]
  {
    assert a in Dom(cols, a);
  }

  /** The objects z and the attributes xs are sorted, the attributes by the objects in the
      order of z, the objects by the attributes in their own order, from the last down. */
  ghost predicate Sorted(rows: seq<set<nat>>, cols: seq<set<nat>>, z: seq<nat>, xs: seq<nat>) {
    && (forall k | 0 <= k < |z| :: z[k] < |rows|) && (forall i | 0 <= i < |xs| :: xs[i] < |cols|)
    && (forall k, k' | 0 <= k < k' < |z| :: LexBefore(cols, z[k'], z[k]))
    && forall i, i' | 0 <= i < i' < |xs| :: LexBefore(RowsOf(rows, z), xs[i], xs[i'])
  }

  ghost function RowsOf(rows: seq<set<nat>>, z: seq<nat>): seq<set<nat>>
    requires forall k | 0 <= k < |z| :: z[k] < |rows|
  {
    seq(|z|, k requires 0 <= k < |z| => rows[z[k]])
  }

  /** The walk of the two cursors: the k-th object is taken when the attributes before
      before[k] have been, the i-th attribute when the objects before after[i] have been.  An
      object is taken if it lacks the attribute at the other cursor, an attribute if the
      object there has it. */
  ghost predicate Walk(rows: seq<set<nat>>, z: seq<nat>, xs: seq<nat>, before: seq<nat>, after: seq<nat>)
    requires forall k | 0 <= k < |z| :: z[k] < |rows|
  {
    && |before| == |z| && |after| == |xs|
    && (forall k | 0 <= k < |z| :: before[k] <= |xs| && (before[k] < |xs| ==> xs[before[k]] !in rows[z[k]]))
    && (forall i | 0 <= i < |xs| :: after[i] <= |z| && (after[i] < |z| ==> xs[i] in rows[z[after[i]]]))
    && forall k, i | 0 <= k < |z| && 0 <= i < |xs| :: i < before[k] <==> after[i] <= k
  }

  lemma AgreeAt(crit: seq<set<nat>>, m: nat, u: nat, w: nat, k: nat)
    requires m <= |crit| && k < |crit| && Agree(crit, m, u, w)
    ensures k < m ==> (u in crit[k] <==> w in crit[k])
  {}

  lemma WalkAt(rows: seq<set<nat>>, z: seq<nat>, xs: seq<nat>, before: seq<nat>, after: seq<nat>, k: nat, i: nat)
    requires (forall k | 0 <= k < |z| :: z[k] < |rows|) && Walk(rows, z, xs, before, after)
    ensures |before| == |z| && |after| == |xs|
    ensures k < |z| ==> before[k] <= |xs|
    ensures i < |xs| ==> after[i] <= |z|
    ensures k < |z| && i < |xs| ==> (i < before[k] <==> after[i] <= k)
  {}

  lemma WalkIsMonotone(rows: seq<set<nat>>, z: seq<nat>, xs: seq<nat>, before: seq<nat>, after: seq<nat>, k: nat,
                       k': nat)
    requires (forall k | 0 <= k < |z| :: z[k] < |rows|) && Walk(rows, z, xs, before, after) && k < k' < |z|
    ensures before[k] <= before[k']
  {
    WalkAt(rows, z, xs, before, after, k', before[k']);
    WalkAt(rows, z, xs, before, after, k, before[k']);
  }

  lemma WalkAfterMonotone(rows: seq<set<nat>>, z: seq<nat>, xs: seq<nat>, before: seq<nat>, after: seq<nat>, i: nat,
                          i': nat)
    requires (forall k | 0 <= k < |z| :: z[k] < |rows|) && Walk(rows, z, xs, before, after) && i < i' < |xs|
    ensures after[i] <= after[i']
  {
    WalkAt(rows, z, xs, before, after, after[i'], i');
    WalkAt(rows, z, xs, before, after, after[i'], i);
  }

  /** No object is taken before an attribute that it has: otherwise an object taken still
      earlier would have, too, an attribute taken after it. */
  lemma {:induction false} AttributeFirst(rows: seq<set<nat>>, cols: seq<set<nat>>, z: seq<nat>, xs: seq<nat>,
                                          before: seq<nat>, after: seq<nat>, k: nat, i: nat)
    requires Sorted(rows, cols, z, xs) && Walk(rows, z, xs, before, after)
    requires k < |z| && i < |xs| && xs[i] in rows[z[k]]
    ensures i < before[k]
    decreases k
  {
    if before[k] < i {
      var j := before[k];
      assert LexBefore(RowsOf(rows, z), xs[j], xs[i]);
      var m :| 0 <= m < |z| && xs[j] in rows[z[m]] && xs[i] !in rows[z[m]] && Agree(RowsOf(rows, z), m, xs[j], xs[i]);
      AgreeAt(RowsOf(rows, z), m, xs[j], xs[i], k);
      AttributeFirst(rows, cols, z, xs, before, after, m, j);
    }
  }

  lemma ObjectsIncrease(rows: seq<set<nat>>, cols: seq<set<nat>>, z: seq<nat>, xs: seq<nat>, k: nat, k': nat)
    requires Sorted(rows, cols, z, xs) && Clarified(rows, cols) && k < |z| && k' < |z|
    ensures k < k' ==> !(rows[z[k']] <= rows[z[k]])
  {
    if k < k' {
      assert LexBefore(cols, z[k'], z[k]);
      var a :| 0 <= a < |cols| && z[k'] in cols[a] && z[k] !in cols[a] && Agree(cols, a, z[k'], z[k]);
      assert a in rows[z[k']] && a !in rows[z[k]];
    }
  }

  lemma AttributesIncrease(rows: seq<set<nat>>, cols: seq<set<nat>>, z: seq<nat>, xs: seq<nat>, i: nat, i': nat)
    requires Sorted(rows, cols, z, xs) && Clarified(rows, cols) && i < i' < |xs|
    ensures !(cols[xs[i]] <= cols[xs[i']]) && !(Dom(cols, xs[i']) <= Dom(cols, xs[i]))
  {
    assert LexBefore(RowsOf(rows, z), xs[i], xs[i']);
    var m :| 0 <= m < |z| && xs[i] in rows[z[m]] && xs[i'] !in rows[z[m]] && Agree(RowsOf(rows, z), m, xs[i], xs[i']);
    assert z[m] in cols[xs[i]] && z[m] !in cols[xs[i']];
    assert xs[i'] in Dom(cols, xs[i']);
  }

  /** Only the attribute of its own concept is taken before an object whose intent it
      includes, and then right before it. */
  lemma ObjectFirst(rows: seq<set<nat>>, cols: seq<set<nat>>, z: seq<nat>, xs: seq<nat>,
                    before: seq<nat>, after: seq<nat>, k: nat, i: nat)
    requires Sorted(rows, cols, z, xs) && Clarified(rows, cols) && Walk(rows, z, xs, before, after)
    requires k < |z| && i < |xs| && i < before[k] && rows[z[k]] <= Dom(cols, xs[i])
    ensures rows[z[k]] == Dom(cols, xs[i]) && after[i] == k && before[k] == i + 1
  {
    var o := z[after[i]];
    assert o in cols[xs[i]];
    forall a | a in rows[z[k]] ensures a in rows[o] {
      assert o in cols[a];
    }
    ObjectsIncrease(rows, cols, z, xs, after[i], k);
    DomInside(rows, cols, xs[i], z[k]);
    if i + 1 < |xs| { NoOtherBetween(rows, cols, z, xs, before, after, k, i); }
  }

  lemma NoOtherBetween(rows: seq<set<nat>>, cols: seq<set<nat>>, z: seq<nat>, xs: seq<nat>,
                       before: seq<nat>, after: seq<nat>, k: nat, i: nat)
    requires Sorted(rows, cols, z, xs) && Clarified(rows, cols) && Walk(rows, z, xs, before, after)
    requires k < |z| && i + 1 < |xs| && after[i] == k && rows[z[k]] == Dom(cols, xs[i])
    ensures before[k] <= i + 1
  {
    AttributesIncrease(rows, cols, z, xs, i, i + 1);
    assert xs[i + 1] !in Dom(cols, xs[i]);
    WalkAfterMonotone(rows, z, xs, before, after, i, i + 1);
    WalkAt(rows, z, xs, before, after, k, i + 1);
  }

  // ---- the list ----

  /** The list holds each object and each attribute at the place the walk gives it. */
  ghost predicate ListedBy(items: seq<nat>, isExtent: seq<bool>, z: seq<nat>, xs: seq<nat>, before: seq<nat>,
                           after: seq<nat>) {
    && |before| == |z| && |after| == |xs| && |items| == |isExtent| == |z| + |xs|
    && (forall k | 0 <= k < |z| :: k + before[k] < |items| && isExtent[k + before[k]] && items[k + before[k]] == z[k])
    && (forall i | 0 <= i < |xs| :: i + after[i] < |items| && !isExtent[i + after[i]] && items[i + after[i]] == xs[i])
    && forall p: nat | p < |items| :: if isExtent[p] then PlaceOf(before, p) else PlaceOf(after, p)
  }

  ghost predicate PlaceOf(taken: seq<nat>, p: nat) {
    exists k :: 0 <= k < |taken| && p == k + taken[k]
  }

  /** Objects and attributes stay in their ranges. */
  ghost predicate ItemsInRange(rows: seq<set<nat>>, cols: seq<set<nat>>, items: seq<nat>, isExtent: seq<bool>) {
    |items| == |isExtent| && forall p | 0 <= p < |items| :: items[p] < if isExtent[p] then |rows| else |cols|
  }

  /** From the top down: no item comes before one whose intent it includes, but for the
      attribute and the object of one concept, which are neighbours. */
  ghost predicate TopDown(rows: seq<set<nat>>, cols: seq<set<nat>>, items: seq<nat>, isExtent: seq<bool>)
    requires ItemsInRange(rows, cols, items, isExtent)
  {
    forall p, q | 0 <= p < q < |items|
      && Value(rows, cols, isExtent[q], items[q]) <= Value(rows, cols, isExtent[p], items[p]) ::
      SameConcept(rows, cols, items, isExtent, p, q)
  }

  ghost predicate SameConcept(rows: seq<set<nat>>, cols: seq<set<nat>>, items: seq<nat>, isExtent: seq<bool>, p: nat,
                              q: nat)
    requires ItemsInRange(rows, cols, items, isExtent) && p < |items| && q < |items|
  {
    q == p + 1 && !isExtent[p] && isExtent[q]
      && Value(rows, cols, isExtent[q], items[q]) == Value(rows, cols, isExtent[p], items[p])
  }

  /** The merged list is in order. */
  lemma MergedIsTopDown(rows: seq<set<nat>>, cols: seq<set<nat>>, z: seq<nat>, xs: seq<nat>, before: seq<nat>,
                        after: seq<nat>,
                        items: seq<nat>, isExtent: seq<bool>)
    requires Sorted(rows, cols, z, xs) && Clarified(rows, cols) && Walk(rows, z, xs, before, after)
      && ListedBy(items, isExtent, z, xs, before, after)
    ensures ItemsInRange(rows, cols, items, isExtent) && TopDown(rows, cols, items, isExtent)
  {
    ItemsAreInRange(rows, cols, z, xs, before, after, items, isExtent);
    hide Sorted, Clarified, Walk, ListedBy, Value, SameConcept;
    forall p: nat, q: nat | p < q < |items|
      && Value(rows, cols, isExtent[q], items[q]) <= Value(rows, cols, isExtent[p], items[p])
      ensures SameConcept(rows, cols, items, isExtent, p, q)
    {
      ItemsInOrder(rows, cols, z, xs, before, after, items, isExtent, p, q);
    }
  }

  lemma ItemsAreInRange(rows: seq<set<nat>>, cols: seq<set<nat>>, z: seq<nat>, xs: seq<nat>, before: seq<nat>,
                        after: seq<nat>, items: seq<nat>, isExtent: seq<bool>)
    requires Sorted(rows, cols, z, xs) && ListedBy(items, isExtent, z, xs, before, after)
    ensures ItemsInRange(rows, cols, items, isExtent)
  {
    SortedInRange(rows, cols, z, xs);
    assert |items| == |isExtent|;
    hide Sorted, ListedBy;
    forall p: nat | p < |items| ensures items[p] < if isExtent[p] then |rows| else |cols| {
      if isExtent[p] {
        var k := PlaceOfObject(items, isExtent, z, xs, before, after, p);
      } else {
        var i := PlaceOfAttribute(items, isExtent, z, xs, before, after, p);
      }
    }
  }

  lemma ItemsInOrder(rows: seq<set<nat>>, cols: seq<set<nat>>, z: seq<nat>, xs: seq<nat>, before: seq<nat>,
                     after: seq<nat>,
                items: seq<nat>, isExtent: seq<bool>, p: nat, q: nat)
    requires Sorted(rows, cols, z, xs) && Clarified(rows, cols) && Walk(rows, z, xs, before, after)
      && ListedBy(items, isExtent, z, xs, before, after)
    requires ItemsInRange(rows, cols, items, isExtent) && p < q < |items|
    requires Value(rows, cols, isExtent[q], items[q]) <= Value(rows, cols, isExtent[p], items[p])
    ensures SameConcept(rows, cols, items, isExtent, p, q)
  {
    hide Sorted, Clarified, Walk, ListedBy, Value, Dom, SameConcept;
    if isExtent[p] {
      ObjectThen(rows, cols, z, xs, before, after, items, isExtent, p, q);
    } else {
      AttributeThen(rows, cols, z, xs, before, after, items, isExtent, p, q);
    }
  }

  lemma PlaceOfObject(items: seq<nat>, isExtent: seq<bool>, z: seq<nat>, xs: seq<nat>, before: seq<nat>,
                      after: seq<nat>, p: nat) returns (k: nat)
    requires ListedBy(items, isExtent, z, xs, before, after) && p < |items| && isExtent[p]
    ensures k < |z| == |before| && p == k + before[k] && items[p] == z[k]
  {
    assert PlaceOf(before, p);
    k :| 0 <= k < |before| && p == k + before[k];
  }

  lemma PlaceOfAttribute(items: seq<nat>, isExtent: seq<bool>, z: seq<nat>, xs: seq<nat>, before: seq<nat>,
                         after: seq<nat>, p: nat) returns (i: nat)
    requires ListedBy(items, isExtent, z, xs, before, after) && p < |items| && !isExtent[p]
    ensures i < |xs| == |after| && p == i + after[i] && items[p] == xs[i]
  {
    assert PlaceOf(after, p);
    i :| 0 <= i < |after| && p == i + after[i];
  }

  /** An object is followed by nothing whose intent it includes. */
  lemma ObjectThen(rows: seq<set<nat>>, cols: seq<set<nat>>, z: seq<nat>, xs: seq<nat>, before: seq<nat>,
                   after: seq<nat>,
                items: seq<nat>, isExtent: seq<bool>, p: nat, q: nat)
    requires Sorted(rows, cols, z, xs) && Clarified(rows, cols) && Walk(rows, z, xs, before, after)
      && ListedBy(items, isExtent, z, xs, before, after)
    requires ItemsInRange(rows, cols, items, isExtent) && p < q < |items|
    requires Value(rows, cols, isExtent[q], items[q]) <= Value(rows, cols, isExtent[p], items[p])
    ensures !isExtent[p]
  {
    SortedInRange(rows, cols, z, xs);
    hide Sorted, Clarified, Walk, ListedBy, Dom;
    if isExtent[p] {
      var k := PlaceOfObject(items, isExtent, z, xs, before, after, p);
      if isExtent[q] {
        var k' := PlaceOfObject(items, isExtent, z, xs, before, after, q);
        if k' < k { WalkIsMonotone(rows, z, xs, before, after, k', k); }
          else { ObjectsIncrease(rows, cols, z, xs, k, k'); }
      } else {
        var i := PlaceOfAttribute(items, isExtent, z, xs, before, after, q);
        DomInside(rows, cols, xs[i], z[k]);
        AttributeFirst(rows, cols, z, xs, before, after, k, i);
        WalkAt(rows, z, xs, before, after, k, i);
      }
    }
  }

  lemma AttributeThen(rows: seq<set<nat>>, cols: seq<set<nat>>, z: seq<nat>, xs: seq<nat>, before: seq<nat>,
                      after: seq<nat>,
                items: seq<nat>, isExtent: seq<bool>, p: nat, q: nat)
    requires Sorted(rows, cols, z, xs) && Clarified(rows, cols) && Walk(rows, z, xs, before, after)
      && ListedBy(items, isExtent, z, xs, before, after)
    requires ItemsInRange(rows, cols, items, isExtent) && p < q < |items|
    requires Value(rows, cols, isExtent[q], items[q]) <= Value(rows, cols, isExtent[p], items[p])
    requires !isExtent[p]
    ensures SameConcept(rows, cols, items, isExtent, p, q)
  {
    SortedInRange(rows, cols, z, xs);
    hide Sorted, Clarified, Walk, ListedBy, Dom;
    var i := PlaceOfAttribute(items, isExtent, z, xs, before, after, p);
    if isExtent[q] {
      var k := PlaceOfObject(items, isExtent, z, xs, before, after, q);
      WalkAt(rows, z, xs, before, after, k, i);
      ObjectFirst(rows, cols, z, xs, before, after, k, i);
    } else {
      var i' := PlaceOfAttribute(items, isExtent, z, xs, before, after, q);
      if i' < i { WalkAfterMonotone(rows, z, xs, before, after, i', i); }
        else { AttributesIncrease(rows, cols, z, xs, i, i'); }
    }
  }

  lemma SortedInRange(rows: seq<set<nat>>, cols: seq<set<nat>>, z: seq<nat>, xs: seq<nat>)
    requires Sorted(rows, cols, z, xs)
    ensures (forall k | 0 <= k < |z| :: z[k] < |rows|) && forall i | 0 <= i < |xs| :: xs[i] < |cols|
  {}

  // ---- the merge ----

  /** What has been taken so far, and when. */
  datatype Trace = Trace(items: seq<nat>, isExtent: seq<bool>, before: seq<nat>, after: seq<nat>)

  ghost predicate Lacking(rows: seq<set<nat>>, z: seq<nat>, xs: seq<nat>, i: nat, before: seq<nat>)
    requires |before| <= |z| && forall m | 0 <= m < |z| :: z[m] < |rows|
  {
    forall m | 0 <= m < |before| :: before[m] <= i && (before[m] < |xs| ==> xs[before[m]] !in rows[z[m]])
  }

  ghost predicate Having(rows: seq<set<nat>>, z: seq<nat>, xs: seq<nat>, k: nat, after: seq<nat>)
    requires |after| <= |xs| && forall m | 0 <= m < |z| :: z[m] < |rows|
  {
    forall m | 0 <= m < |after| :: after[m] <= k && (after[m] < |z| ==> xs[m] in rows[z[after[m]]])
  }

  ghost predicate Placed(items: seq<nat>, isExtent: seq<bool>, kind: bool, elems: seq<nat>, taken: seq<nat>) {
    && |items| == |isExtent| && |taken| <= |elems|
    && forall m | 0 <= m < |taken| ::
      m + taken[m] < |items| && isExtent[m + taken[m]] == kind && items[m + taken[m]] == elems[m]
  }

  ghost predicate Crossing(before: seq<nat>, after: seq<nat>) {
    forall m, l | 0 <= m < |before| && 0 <= l < |after| :: l < before[m] <==> after[l] <= m
  }

  ghost predicate Filled(isExtent: seq<bool>, before: seq<nat>, after: seq<nat>) {
    forall p: nat | p < |isExtent| :: if isExtent[p] then PlaceOf(before, p) else PlaceOf(after, p)
  }

  /** k objects and i attributes have been taken. */
  ghost predicate Merging(rows: seq<set<nat>>, z: seq<nat>, xs: seq<nat>, k: nat, i: nat, t: Trace) {
    && (forall m | 0 <= m < |z| :: z[m] < |rows|)
    && |t.before| == k <= |z| && |t.after| == i <= |xs| && |t.items| == |t.isExtent| == k + i
    && Lacking(rows, z, xs, i, t.before) && Having(rows, z, xs, k, t.after)
    && Placed(t.items, t.isExtent, true, z, t.before) && Placed(t.items, t.isExtent, false, xs, t.after)
    && Crossing(t.before, t.after) && Filled(t.isExtent, t.before, t.after)
  }

  lemma PlaceKept(taken: seq<nat>, x: nat, p: nat)
    ensures PlaceOf(taken, p) ==> PlaceOf(taken + [x], p)
    ensures p == |taken| + x ==> PlaceOf(taken + [x], p)
  {
    if PlaceOf(taken, p) {
      var k :| 0 <= k < |taken| && p == k + taken[k];
      assert (taken + [x])[k] == taken[k];
    }
    assert (taken + [x])[|taken|] == x;
  }

  lemma PlaceMore(items: seq<nat>, isExtent: seq<bool>, kind: bool, elems: seq<nat>, taken: seq<nat>, e: nat,
                  other: bool, n: nat)
    requires Placed(items, isExtent, kind, elems, taken)
    ensures Placed(items + [e], isExtent + [other], kind, elems, taken)
    ensures other == kind && |taken| < |elems| && elems[|taken|] == e && |taken| + n == |items| ==>
      Placed(items + [e], isExtent + [other], kind, elems, taken + [n])
  {}

  lemma FillMore(isExtent: seq<bool>, before: seq<nat>, after: seq<nat>, n: nat)
    requires Filled(isExtent, before, after)
    ensures |isExtent| == |before| + n ==> Filled(isExtent + [true], before + [n], after)
    ensures |isExtent| == |after| + n ==> Filled(isExtent + [false], before, after + [n])
  {
    hide PlaceOf;
    forall p: nat ensures PlaceOf(before, p) ==> PlaceOf(before + [n], p) {
      PlaceKept(before, n, p);
    }
    forall p: nat ensures PlaceOf(after, p) ==> PlaceOf(after + [n], p) {
      PlaceKept(after, n, p);
    }
    PlaceKept(before, n, |isExtent|);
    PlaceKept(after, n, |isExtent|);
  }

  ghost function WithObject(t: Trace, e: nat): Trace {
    t.(items := t.items + [e], isExtent := t.isExtent + [true], before := t.before + [|t.after|])
  }

  ghost function WithAttribute(t: Trace, e: nat): Trace {
    t.(items := t.items + [e], isExtent := t.isExtent + [false], after := t.after + [|t.before|])
  }

  lemma TakeObject(rows: seq<set<nat>>, z: seq<nat>, xs: seq<nat>, k: nat, i: nat, t: Trace)
    requires Merging(rows, z, xs, k, i, t) && k < |z| && (i < |xs| ==> xs[i] !in rows[z[k]])
    ensures Merging(rows, z, xs, k + 1, i, WithObject(t, z[k]))
  {
    hide Placed, Filled;
    assert Crossing(t.before + [i], t.after) && Lacking(rows, z, xs, i, t.before + [i])
      && Having(rows, z, xs, k + 1, t.after);
    hide Crossing, Lacking, Having;
    PlaceMore(t.items, t.isExtent, true, z, t.before, z[k], true, i);
    PlaceMore(t.items, t.isExtent, false, xs, t.after, z[k], true, i);
    FillMore(t.isExtent, t.before, t.after, i);
  }

  lemma TakeAttribute(rows: seq<set<nat>>, z: seq<nat>, xs: seq<nat>, k: nat, i: nat, t: Trace)
    requires Merging(rows, z, xs, k, i, t) && i < |xs| && (k < |z| ==> xs[i] in rows[z[k]])
    ensures Merging(rows, z, xs, k, i + 1, WithAttribute(t, xs[i]))
  {
    assert Crossing(t.before, t.after + [k]) && Lacking(rows, z, xs, i + 1, t.before)
      && Having(rows, z, xs, k, t.after + [k]);
    hide Placed, Filled, Crossing, Lacking, Having;
    PlaceMore(t.items, t.isExtent, false, xs, t.after, xs[i], false, k);
    PlaceMore(t.items, t.isExtent, true, z, t.before, xs[i], false, k);
    FillMore(t.isExtent, t.before, t.after, k);
  }

  /** The blocks are the single elements z, from the last block to the first. */
  ghost predicate Singles(blocks: seq<set<nat>>, z: seq<nat>) {
    |z| == |blocks| && forall k | 0 <= k < |z| :: blocks[k] == {z[k]}
  }

  ghost function Reversed(z: seq<nat>): (r: seq<nat>)
    ensures |r| == |z| && forall k | 0 <= k < |z| :: r[k] == z[|z| - 1 - k]
  {
    seq(|z|, k requires 0 <= k < |z| => z[|z| - 1 - k])
  }

  ghost predicate BlocksOf(list: seq<set<nat>>, items: seq<nat>) {
    |list| == |items| && forall p | 0 <= p < |list| :: list[p] == {items[p]}
  }

  ghost predicate Input(rows: seq<set<nat>>, n: nat, objects: seq<set<nat>>, attributes: seq<set<nat>>, ys: seq<nat>,
                        xs: seq<nat>) {
    && Singles(objects, ys) && Singles(attributes, xs)
    && (forall k | 0 <= k < |ys| :: ys[k] < |rows|) && forall i | 0 <= i < |xs| :: xs[i] < n
  }

  /** The cursors stand at object block j, going down, and at attribute block i. */
  ghost predicate Cursors(rows: seq<set<nat>>, ys: seq<nat>, xs: seq<nat>, j: int, i: nat, list: seq<set<nat>>,
                          isExtent: seq<bool>, t: Trace) {
    && -1 <= j < |ys| && i <= |xs| && BlocksOf(list, t.items) && isExtent == t.isExtent
    && Merging(rows, Reversed(ys), xs, |ys| - 1 - j, i, t)
  }

  lemma AtCursors(rows: seq<set<nat>>, n: nat, objects: seq<set<nat>>, attributes: seq<set<nat>>, ys: seq<nat>,
                  xs: seq<nat>,
                  j: int, i: nat, list: seq<set<nat>>, isExtent: seq<bool>, t: Trace)
    requires Input(rows, n, objects, attributes, ys, xs) && Cursors(rows, ys, xs, j, i, list, isExtent, t)
    ensures -1 <= j < |objects| == |ys| && i <= |attributes| == |xs|
    ensures 0 <= j ==> objects[j] == {ys[j]} && ys[j] < |rows|
    ensures i < |attributes| ==> attributes[i] == {xs[i]} && xs[i] < n
  {}

  lemma NextObject(rows: seq<set<nat>>, n: nat, objects: seq<set<nat>>, attributes: seq<set<nat>>, ys: seq<nat>,
                   xs: seq<nat>,
                   j: nat, i: nat, list: seq<set<nat>>, isExtent: seq<bool>, t: Trace)
    requires Input(rows, n, objects, attributes, ys, xs) && Cursors(rows, ys, xs, j, i, list, isExtent, t)
    requires j < |ys| && ys[j] < |rows| && j < |objects| && (i < |xs| ==> xs[i] !in rows[ys[j]])
    ensures Cursors(rows, ys, xs, j - 1, i, list + [objects[j]], isExtent + [true], WithObject(t, ys[j]))
  {
    hide Merging;
    TakeObject(rows, Reversed(ys), xs, |ys| - 1 - j, i, t);
  }

  lemma NextAttribute(rows: seq<set<nat>>, n: nat, objects: seq<set<nat>>, attributes: seq<set<nat>>, ys: seq<nat>,
                      xs: seq<nat>,
                      j: int, i: nat, list: seq<set<nat>>, isExtent: seq<bool>, t: Trace)
    requires Input(rows, n, objects, attributes, ys, xs) && Cursors(rows, ys, xs, j, i, list, isExtent, t)
    requires j < |ys| && i < |xs| && i < |attributes| && (0 <= j ==> ys[j] < |rows| && xs[i] in rows[ys[j]])
    ensures Cursors(rows, ys, xs, j, i + 1, list + [attributes[i]], isExtent + [false], WithAttribute(t, xs[i]))
  {
    hide Merging;
    TakeAttribute(rows, Reversed(ys), xs, |ys| - 1 - j, i, t);
  }

  lemma CursorsStart(rows: seq<set<nat>>, n: nat, objects: seq<set<nat>>, attributes: seq<set<nat>>, ys: seq<nat>,
                     xs: seq<nat>)
    requires Input(rows, n, objects, attributes, ys, xs)
    ensures Cursors(rows, ys, xs, |objects| - 1, 0, [], [], Trace([], [], [], []))
  {
    NothingTaken(rows, Reversed(ys), xs);
  }

  lemma CursorsEnd(rows: seq<set<nat>>, ys: seq<nat>, xs: seq<nat>, list: seq<set<nat>>, isExtent: seq<bool>, t: Trace)
    requires Cursors(rows, ys, xs, -1, |xs|, list, isExtent, t) && forall k | 0 <= k < |ys| :: ys[k] < |rows|
    ensures Walk(rows, Reversed(ys), xs, t.before, t.after)
      && ListedBy(t.items, t.isExtent, Reversed(ys), xs, t.before, t.after)
    ensures BlocksOf(list, t.items) && isExtent == t.isExtent
  {
    AllTaken(rows, Reversed(ys), xs, t);
  }

  method Merge(rows: seq<set<nat>>, ghost n: nat, objects: seq<set<nat>>, attributes: seq<set<nat>>,
               ghost ys: seq<nat>, ghost xs: seq<nat>)
      returns (list: seq<set<nat>>, isExtent: seq<bool>, ghost t: Trace)
    requires Input(rows, n, objects, attributes, ys, xs)
    ensures (forall k | 0 <= k < |ys| :: ys[k] < |rows|) && Walk(rows, Reversed(ys), xs, t.before, t.after)
    ensures ListedBy(t.items, t.isExtent, Reversed(ys), xs, t.before, t.after)
    ensures BlocksOf(list, t.items) && isExtent == t.isExtent
  {
    hide Cursors;
    list, isExtent, t := [], [], Trace([], [], [], []);
    var j: int, i := |objects| - 1, 0;
    CursorsStart(rows, n, objects, attributes, ys, xs);
    assert forall k | 0 <= k < |ys| :: ys[k] < |rows|;
    hide Input, Walk, ListedBy, BlocksOf, WithObject, WithAttribute, Reversed;
    AtCursors(rows, n, objects, attributes, ys, xs, j, i, list, isExtent, t);
    while j >= 0 && i < |attributes|
      invariant -1 <= j < |objects| == |ys| && i <= |attributes| == |xs|
        && Cursors(rows, ys, xs, j, i, list, isExtent, t)
      decreases j + |attributes| - i
    {
      AtCursors(rows, n, objects, attributes, ys, xs, j, i, list, isExtent, t);
      var y := Derivation.FirstIn(objects[j], |rows|);
      var x := Derivation.FirstIn(attributes[i], n);
      if x in rows[y] {
        NextAttribute(rows, n, objects, attributes, ys, xs, j, i, list, isExtent, t);
        t := WithAttribute(t, xs[i]);
        list, isExtent, i := list + [attributes[i]], isExtent + [false], i + 1;
      } else {
        NextObject(rows, n, objects, attributes, ys, xs, j, i, list, isExtent, t);
        t := WithObject(t, ys[j]);
        list, isExtent, j := list + [objects[j]], isExtent + [true], j - 1;
      }
    }
    while j >= 0
      invariant -1 <= j < |objects| == |ys| && i <= |attributes| == |xs| && (j < 0 || i == |attributes|)
      invariant Cursors(rows, ys, xs, j, i, list, isExtent, t)
      decreases j
    {
      AtCursors(rows, n, objects, attributes, ys, xs, j, i, list, isExtent, t);
      NextObject(rows, n, objects, attributes, ys, xs, j, i, list, isExtent, t);
      t := WithObject(t, ys[j]);
      list, isExtent, j := list + [objects[j]], isExtent + [true], j - 1;
    }
    while i < |attributes|
      invariant j == -1 && i <= |attributes| == |xs| && Cursors(rows, ys, xs, j, i, list, isExtent, t)
    {
      NextAttribute(rows, n, objects, attributes, ys, xs, j, i, list, isExtent, t);
      t := WithAttribute(t, xs[i]);
      list, isExtent, i := list + [attributes[i]], isExtent + [false], i + 1;
    }
    CursorsEnd(rows, ys, xs, list, isExtent, t);
  }

  lemma NothingTaken(rows: seq<set<nat>>, z: seq<nat>, xs: seq<nat>)
    requires forall k | 0 <= k < |z| :: z[k] < |rows|
    ensures Merging(rows, z, xs, 0, 0, Trace([], [], [], []))
  {}

  lemma AllTaken(rows: seq<set<nat>>, z: seq<nat>, xs: seq<nat>, t: Trace)
    requires Merging(rows, z, xs, |z|, |xs|, t)
    ensures Walk(rows, z, xs, t.before, t.after) && ListedBy(t.items, t.isExtent, z, xs, t.before, t.after)
  {
    hide PlaceOf;
  }
}
