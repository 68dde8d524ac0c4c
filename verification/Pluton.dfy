/** Pluton: the maxmod partitions of the clarified context, merged by Tom Thumb into a linear
    extension whose neighbours of one concept are coupled. */
module Pluton {
  import opened FiniteSets
  import opened FormalContext
  import opened Graphs
  import opened Grouping
  import opened AocPoset
  import opened HasseScan
  import opened MaxMod
  import opened TomThumb
  import opened Hermes
  import Derivation

  // ---- the sorted lists ----

  ghost predicate ToldApart(crit: seq<set<nat>>, u: nat, w: nat) {
    exists m :: 0 <= m < |crit| && TellsApart(crit[m], u, w)
  }

  ghost predicate TellsApart(r: set<nat>, u: nat, w: nat) {
    (u in r) != (w in r)
  }

  ghost predicate Separates(crit: seq<set<nat>>, n: nat) {
    forall u: nat, w: nat | u < w < n :: ToldApart(crit, u, w)
  }

  lemma Separated(crit: seq<set<nat>>, n: nat, u: nat, w: nat)
    requires Separates(crit, n) && u < n && w < n && Agree(crit, |crit|, u, w)
    ensures u == w
  {
    assert u < w ==> ToldApart(crit, u, w);
    assert w < u ==> ToldApart(crit, w, u);
  }

  /** Blocks of a partition by criteria that tell all elements apart. */
  lemma Singled(part: seq<set<nat>>, crit: seq<set<nat>>, n: nat) returns (elems: seq<nat>)
    requires IsPartition(part, crit, n) && Separates(crit, n)
    ensures TomThumb.Singles(part, elems) && (forall k | 0 <= k < |elems| :: elems[k] < n)
      && forall x: nat | x < n :: x in elems
    ensures forall b, c | 0 <= b < c < |elems| :: LexBefore(crit, elems[b], elems[c])
  {
    hide LexBefore, Separates;
    elems := [];
    for b := 0 to |part|
      invariant |elems| == b && forall k | 0 <= k < b :: part[k] == {elems[k]} && elems[k] in part[k] && elems[k] < n
    {
      var e :| e in part[b];
      forall w | w in part[b] ensures w == e {
        Separated(crit, n, e, w);
      }
      assert part[b] == {e};
      elems := elems + [e];
    }
    forall x: nat | x < n ensures x in elems {
      assert InBlock(part, x);
      var b :| 0 <= b < |part| && x in part[b];
      assert elems[b] == x;
    }
  }

  lemma ColumnsSeparate(rows: seq<set<nat>>, cols: seq<set<nat>>)
    requires Clarified(rows, cols)
    ensures Separates(cols, |rows|)
  {
    forall u: nat, w: nat | u < w < |rows| ensures ToldApart(cols, u, w) {
      assert rows[u] != rows[w];
      var a :| a in rows[u] + rows[w] && !(a in rows[u] && a in rows[w]);
      assert TellsApart(cols[a], u, w);
    }
  }

  lemma RowsSeparate(rows: seq<set<nat>>, cols: seq<set<nat>>, z: seq<nat>)
    requires Clarified(rows, cols) && (forall k | 0 <= k < |z| :: z[k] < |rows|) && forall o: nat | o < |rows| :: o in z
    ensures Separates(RowsOf(rows, z), |cols|)
  {
    forall u: nat, w: nat | u < w < |cols| ensures ToldApart(RowsOf(rows, z), u, w) {
      assert cols[u] != cols[w];
      var o :| o in cols[u] + cols[w] && !(o in cols[u] && o in cols[w]);
      assert o in z;
      var m :| 0 <= m < |z| && z[m] == o;
      assert TellsApart(RowsOf(rows, z)[m], u, w);
    }
  }

  /** Both partitions, sorted as the merge needs them. */
  method Partitions(rows: seq<set<nat>>, cols: seq<set<nat>>)
      returns (objects: seq<set<nat>>, attributes: seq<set<nat>>, ghost ys: seq<nat>, ghost xs: seq<nat>)
    requires Clarified(rows, cols) && |rows| > 0 && |cols| > 0
    ensures Input(rows, |cols|, objects, attributes, ys, xs) && Sorted(rows, cols, Reversed(ys), xs)
    ensures (forall o: nat | o < |rows| :: o in Reversed(ys)) && forall a: nat | a < |cols| :: a in xs
  {
    objects := PartitionOA(cols, |rows|);
    ColumnsSeparate(rows, cols);
    ys := Singled(objects, cols, |rows|);
    ghost var z := Reversed(ys);
    forall o: nat | o < |rows| ensures o in z {
      assert o in ys;
      var k :| 0 <= k < |ys| && ys[k] == o;
      assert z[|ys| - 1 - k] == o;
    }
    BlocksInRange(objects, cols, |rows|);
    ghost var crit;
    attributes, crit := PartitionAO(rows, objects, |cols|);
    CriteriaAreRows(rows, objects, ys, crit);
    RowsSeparate(rows, cols, z);
    xs := Singled(attributes, crit, |cols|);
    hide Clarified, IsPartition, Separates, LexBefore;
  }

  lemma BlocksInRange(part: seq<set<nat>>, crit: seq<set<nat>>, n: nat)
    requires IsPartition(part, crit, n)
    ensures forall b | 0 <= b < |part| :: part[b] != {} && part[b] <= Range(n)
  {}

  lemma CriteriaAreRows(rows: seq<set<nat>>, blocks: seq<set<nat>>, ys: seq<nat>, crit: seq<set<nat>>)
    requires TomThumb.Singles(blocks, ys) && |crit| == |blocks| && forall k | 0 <= k < |ys| :: ys[k] < |rows|
    requires forall k | 0 <= k < |blocks| :: IsRowOf(rows, blocks[|blocks| - 1 - k], crit[k])
    ensures crit == RowsOf(rows, Reversed(ys))
  {
    forall k | 0 <= k < |crit| ensures crit[k] == rows[Reversed(ys)[k]] {
      assert IsRowOf(rows, blocks[|blocks| - 1 - k], crit[k]);
    }
  }

  // ---- coupling ----

  /** Item p is an object and the item before it the attribute of the same concept. */
  ghost predicate Coupled(rows: seq<set<nat>>, cols: seq<set<nat>>, items: seq<nat>, isExtent: seq<bool>, p: nat)
    requires ItemsInRange(rows, cols, items, isExtent) && p < |items|
  {
    p > 0 && SameConcept(rows, cols, items, isExtent, p - 1, p)
  }

  /** The concept whose last item is p. */
  ghost predicate IsItemConcept(rows: seq<set<nat>>, cols: seq<set<nat>>, items: seq<nat>, isExtent: seq<bool>,
                                p: nat, ext: set<nat>, int_: set<nat>)
    requires ItemsInRange(rows, cols, items, isExtent) && p < |items|
  {
    if isExtent[p] then ext == {items[p]} && int_ == (if Coupled(rows, cols, items, isExtent,
        p) then {items[p - 1]} else {})
    else ext == {} && int_ == {items[p]}
  }

  /** The test of the source: o has the attribute, and all objects that have it have all
      that o has. */
  method Couples(rows: seq<set<nat>>, cols: seq<set<nat>>, o: nat, a: nat) returns (couple: bool)
    requires Clarified(rows, cols) && o < |rows| && a < |cols|
    ensures couple <==> rows[o] == Dom(cols, a)
  {
    couple := false;
    CoupleMeans(rows, cols, o, a);
    if o in cols[a] {
      couple := true;
      for j := 0 to |rows|
        invariant couple <==> forall i | 0 <= i < j && i in cols[a] :: rows[o] <= rows[i]
      {
        if couple && j in cols[a] && !(rows[o] <= rows[j]) {
          couple := false;
        }
      }
    }
  }

  lemma CoupleMeans(rows: seq<set<nat>>, cols: seq<set<nat>>, o: nat, a: nat)
    requires Clarified(rows, cols) && o < |rows| && a < |cols|
    ensures rows[o] == Dom(cols, a)
      <==> o in cols[a] && forall i | 0 <= i < |rows| && i in cols[a] :: rows[o] <= rows[i]
  {
    DomInside(rows, cols, a, o);
    if o in cols[a] && forall i | 0 <= i < |rows| && i in cols[a] :: rows[o] <= rows[i] {
      forall b | b in rows[o] ensures b in Dom(cols, a) {
        forall i | i in cols[a] ensures i in cols[b] {
          assert rows[o] <= rows[i];
        }
      }
    }
    if rows[o] == Dom(cols, a) {
      forall i | 0 <= i < |rows| && i in cols[a] ensures rows[o] <= rows[i] {
        forall b | b in rows[o] ensures b in rows[i] {
          assert i in cols[b];
        }
      }
    }
  }

  /** The items from `rest` on have been turned into concepts, the last ones first; lasts[c]
      is the last item of concept c. */
  ghost predicate Linked(rows: seq<set<nat>>, cols: seq<set<nat>>, items: seq<nat>, isExtent: seq<bool>, rest: nat,
                         exts: seq<set<nat>>, ints: seq<set<nat>>, lasts: seq<nat>)
    requires ItemsInRange(rows, cols, items, isExtent)
  {
    && rest <= |items| && |exts| == |ints| == |lasts|
    && (forall c | 0 <= c < |lasts| :: rest <= lasts[c] < |items|)
    && (forall c | 0 <= c < |lasts| :: IsItemConcept(rows, cols, items, isExtent, lasts[c], exts[c], ints[c]))
    && (forall c | 0 <= c < |lasts| && Coupled(rows, cols, items, isExtent, lasts[c]) :: rest < lasts[c])
    && (forall c, d | 0 <= c < d < |lasts| ::
      lasts[d] < lasts[c] && (Coupled(rows, cols, items, isExtent, lasts[c]) ==> lasts[d] != lasts[c] - 1))
    && forall p | rest <= p < |items| :: HasLast(rows, cols, items, isExtent, lasts, p)
  }

  ghost predicate HasLast(rows: seq<set<nat>>, cols: seq<set<nat>>, items: seq<nat>, isExtent: seq<bool>,
                          lasts: seq<nat>, p: nat)
    requires ItemsInRange(rows, cols, items, isExtent)
  {
    exists c :: 0 <= c < |lasts| && (lasts[c] == p
      || (lasts[c] == p + 1 && p + 1 < |items| && Coupled(rows, cols, items, isExtent, p + 1)))
  }

  lemma LastKept(rows: seq<set<nat>>, cols: seq<set<nat>>, items: seq<nat>, isExtent: seq<bool>, lasts: seq<nat>,
                 l: nat, p: nat)
    requires ItemsInRange(rows, cols, items, isExtent)
    ensures HasLast(rows, cols, items, isExtent, lasts, p) ==> HasLast(rows, cols, items, isExtent, lasts + [l], p)
    ensures l == p || (l == p + 1 && p + 1 < |items| && Coupled(rows, cols, items, isExtent, p + 1))
      ==> HasLast(rows, cols, items, isExtent, lasts + [l], p)
  {
    hide Coupled;
    if HasLast(rows, cols, items, isExtent, lasts, p) {
      var c :| 0 <= c < |lasts|
        && (lasts[c] == p || (lasts[c] == p + 1 && p + 1 < |items| && Coupled(rows, cols, items, isExtent, p + 1)));
      assert (lasts + [l])[c] == lasts[c];
    }
    assert (lasts + [l])[|lasts|] == l;
  }

  /** One more concept, of one item or of two. */
  lemma LinkOne(rows: seq<set<nat>>, cols: seq<set<nat>>, items: seq<nat>, isExtent: seq<bool>, rest: nat,
                exts: seq<set<nat>>, ints: seq<set<nat>>, lasts: seq<nat>, ext: set<nat>, int_: set<nat>)
    requires ItemsInRange(rows, cols, items, isExtent) && rest > 0
      && Linked(rows, cols, items, isExtent, rest, exts, ints, lasts)
    requires IsItemConcept(rows, cols, items, isExtent, rest - 1, ext, int_)
    ensures Linked(rows, cols, items, isExtent,
                   if Coupled(rows, cols, items, isExtent, rest - 1) then rest - 2 else rest - 1,
                   exts + [ext], ints + [int_], lasts + [rest - 1])
  {
    hide IsItemConcept, HasLast;
    var rest' := if Coupled(rows, cols, items, isExtent, rest - 1) then rest - 2 else rest - 1;
    var lasts' := lasts + [rest - 1];
    forall p | rest' <= p < |items| ensures HasLast(rows, cols, items, isExtent, lasts', p) {
      LastKept(rows, cols, items, isExtent, lasts, rest - 1, p);
    }
  }

  /** The linear extension: the items from the last to the first, neighbours of one concept
      together. */
  method Linext(rows: seq<set<nat>>, cols: seq<set<nat>>, list: seq<set<nat>>, isExtent: seq<bool>,
                ghost items: seq<nat>)
      returns (exts: seq<set<nat>>, ints: seq<set<nat>>, ghost lasts: seq<nat>)
    requires Clarified(rows, cols) && ItemsInRange(rows, cols, items, isExtent) && BlocksOf(list, items) && |list| > 1
    ensures Linked(rows, cols, items, isExtent, 0, exts, ints, lasts)
  {
    hide Clarified, Linked, Coupled, IsItemConcept;
    exts, ints, lasts := [], [], [];
    var lastAlone := true;
    NothingLinked(rows, cols, items, isExtent);
    var idx: int := |list| - 1;
    while idx > 0
      invariant -1 <= idx < |list| && (lastAlone <==> idx >= 0)
      invariant Linked(rows, cols, items, isExtent, idx + 1, exts, ints, lasts)
    {
      var ext, int_, couple := OneConcept(rows, cols, list, isExtent, items, idx);
      LinkOne(rows, cols, items, isExtent, idx + 1, exts, ints, lasts, ext, int_);
      exts, ints, lasts := exts + [ext], ints + [int_], lasts + [idx];
      if couple {
        if idx == 1 {
          lastAlone := false;
        }
        idx := idx - 1;
      }
      idx := idx - 1;
    }
    if lastAlone {
      var ext: set<nat>, int_: set<nat> := {}, {};
      if isExtent[0] {
        ext := list[0];
      } else {
        int_ := list[0];
      }
      FirstAlone(rows, cols, items, isExtent, ext, int_);
      LinkOne(rows, cols, items, isExtent, 1, exts, ints, lasts, ext, int_);
      exts, ints, lasts := exts + [ext], ints + [int_], lasts + [0];
    }
  }

  lemma NothingLinked(rows: seq<set<nat>>, cols: seq<set<nat>>, items: seq<nat>, isExtent: seq<bool>)
    requires ItemsInRange(rows, cols, items, isExtent)
    ensures Linked(rows, cols, items, isExtent, |items|, [], [], [])
  {}

  lemma FirstAlone(rows: seq<set<nat>>, cols: seq<set<nat>>, items: seq<nat>, isExtent: seq<bool>, ext: set<nat>,
                   int_: set<nat>)
    requires ItemsInRange(rows, cols, items, isExtent) && |items| > 0
    requires if isExtent[0] then ext == {items[0]} && int_ == {} else ext == {} && int_ == {items[0]}
    ensures IsItemConcept(rows, cols, items, isExtent, 0, ext, int_) && !Coupled(rows, cols, items, isExtent, 0)
  {}

  method OneConcept(rows: seq<set<nat>>, cols: seq<set<nat>>, list: seq<set<nat>>, isExtent: seq<bool>,
                    ghost items: seq<nat>, idx: nat)
      returns (ext: set<nat>, int_: set<nat>, couple: bool)
    requires Clarified(rows, cols) && ItemsInRange(rows, cols, items, isExtent) && BlocksOf(list, items)
      && 0 < idx < |list|
    ensures IsItemConcept(rows, cols, items, isExtent, idx, ext, int_)
      && (couple <==> Coupled(rows, cols, items, isExtent, idx))
  {
    hide Clarified;
    ext, int_, couple := {}, {}, false;
    if isExtent[idx] {
      if !isExtent[idx - 1] {
        var o := Derivation.FirstIn(list[idx], |rows|);
        var a := Derivation.FirstIn(list[idx - 1], |cols|);
        couple := Couples(rows, cols, o, a);
      }
      ext := list[idx];
      if couple {
        int_ := list[idx - 1];
      }
    } else {
      int_ := list[idx];
    }
  }

  // ---- what the concepts are ----

  /** Two items of one concept are coupled. */
  lemma SameValue(rows: seq<set<nat>>, cols: seq<set<nat>>, items: seq<nat>, isExtent: seq<bool>, p: nat, q: nat)
    requires ItemsInRange(rows, cols, items, isExtent) && TopDown(rows, cols, items, isExtent) && p < q < |items|
    requires Value(rows, cols, isExtent[q], items[q]) <= Value(rows, cols, isExtent[p], items[p])
    ensures p + 1 == q && Coupled(rows, cols, items, isExtent, q) && !isExtent[p] && isExtent[q]
  {
    hide Value;
  }

  /** The intent of concept c. */
  ghost function ConceptValue(rows: seq<set<nat>>, cols: seq<set<nat>>, items: seq<nat>, isExtent: seq<bool>,
                              lasts: seq<nat>, c: nat): set<nat>
    requires ItemsInRange(rows, cols, items, isExtent) && c < |lasts| && lasts[c] < |items|
  {
    Value(rows, cols, isExtent[lasts[c]], items[lasts[c]])
  }

  lemma LinkedAt(rows: seq<set<nat>>, cols: seq<set<nat>>, items: seq<nat>, isExtent: seq<bool>,
                 exts: seq<set<nat>>, ints: seq<set<nat>>, lasts: seq<nat>, c: nat, d: nat)
    requires ItemsInRange(rows, cols, items, isExtent) && Linked(rows, cols, items, isExtent, 0, exts, ints, lasts)
    requires c < |lasts| && d < |lasts|
    ensures lasts[c] < |items| && (c < d ==> lasts[d] < lasts[c])
    ensures c < d && Coupled(rows, cols, items, isExtent, lasts[c]) ==> lasts[d] + 1 != lasts[c]
  {}

  /** Later concepts never include the intent of earlier ones. */
  lemma LinextIsExtension(rows: seq<set<nat>>, cols: seq<set<nat>>, items: seq<nat>, isExtent: seq<bool>,
                          exts: seq<set<nat>>, ints: seq<set<nat>>, lasts: seq<nat>, v: seq<set<nat>>)
    requires ItemsInRange(rows, cols, items, isExtent) && TopDown(rows, cols, items, isExtent)
    requires Linked(rows, cols, items, isExtent, 0, exts, ints, lasts) && |v| == |lasts|
    requires forall c | 0 <= c < |lasts| ::
        lasts[c] < |items| && v[c] == ConceptValue(rows, cols, items, isExtent, lasts, c)
    ensures LinearExtension(v)
  {
    forall c, d | 0 <= c < d < |v| ensures !(v[c] <= v[d]) {
      LinkedAt(rows, cols, items, isExtent, exts, ints, lasts, c, d);
      if v[c] <= v[d] { SameValue(rows, cols, items, isExtent, lasts[d], lasts[c]); }
    }
  }

  /** The only item with the value of a concept's last item, beside it, is the one coupled. */
  lemma OnlyItem(rows: seq<set<nat>>, cols: seq<set<nat>>, items: seq<nat>, isExtent: seq<bool>,
                 exts: seq<set<nat>>, ints: seq<set<nat>>, lasts: seq<nat>, c: nat, p: nat)
    requires ItemsInRange(rows, cols, items, isExtent) && TopDown(rows, cols, items, isExtent)
    requires Linked(rows, cols, items, isExtent, 0, exts, ints, lasts) && c < |lasts| && lasts[c] < |items|
      && p < |items|
    requires Value(rows, cols, isExtent[p], items[p]) == ConceptValue(rows, cols, items, isExtent, lasts, c)
    ensures p == lasts[c]
      || (p + 1 == lasts[c] && Coupled(rows, cols, items, isExtent, lasts[c]) && !isExtent[p] && isExtent[lasts[c]])
  {
    var l := lasts[c];
    if p < l {
      SameValue(rows, cols, items, isExtent, p, l);
    } else if l < p {
      SameValue(rows, cols, items, isExtent, l, p);
      NotSecond(rows, cols, items, isExtent, exts, ints, lasts, c);
    }
  }

  /** The last item of a concept is not coupled with the item after it. */
  lemma NotSecond(rows: seq<set<nat>>, cols: seq<set<nat>>, items: seq<nat>, isExtent: seq<bool>,
                  exts: seq<set<nat>>, ints: seq<set<nat>>, lasts: seq<nat>, c: nat)
    requires ItemsInRange(rows, cols, items, isExtent) && Linked(rows, cols, items, isExtent, 0, exts, ints, lasts)
      && c < |lasts|
    requires lasts[c] + 1 < |items|
    ensures !Coupled(rows, cols, items, isExtent, lasts[c] + 1)
  {
    var q := lasts[c] + 1;
    assert HasLast(rows, cols, items, isExtent, lasts, q);
    var d: nat :| d < |lasts|
      && (lasts[d] == q || (lasts[d] == q + 1 && q + 1 < |items| && Coupled(rows, cols, items, isExtent, q + 1)));
    LinkedAt(rows, cols, items, isExtent, exts, ints, lasts, d, c);
    LinkedAt(rows, cols, items, isExtent, exts, ints, lasts, c, d);
  }

  // ---- the concepts of the context ----

  ghost function Values(classes: seq<RefSet>): (r: seq<set<nat>>)
    ensures |r| == |classes| && forall c | 0 <= c < |classes| :: r[c] == classes[c].values
  {
    seq(|classes|, c requires 0 <= c < |classes| => classes[c].values)
  }

  lemma ClassesAreClarified(ctx: Context, objs: seq<RefSet>, attrs: seq<RefSet>)
    requires Classed(ctx.rows, |ctx.cols|, objs, attrs)
    ensures Clarified(Values(objs), Values(attrs))
  {
    var rows, cols := Values(objs), Values(attrs);
    forall c: nat, d: nat | c < |rows| && d < |cols| ensures d in rows[c] <==> c in cols[d] {
      var o :| o in objs[c].refs;
      var a :| a in attrs[d].refs;
      assert o in Range(|ctx.rows|);
      assert RelatedAt(ctx.rows, objs, attrs, c, d, o, a);
    }
  }

  lemma DomIsDominators(attrs: seq<RefSet>, i: nat)
    requires i < |attrs|
    ensures Dom(Values(attrs), i) == Dominators(attrs, i)
  {}

  /** The refs of the class of a single element, or nothing. */
  ghost predicate IsSubstituted(set_: set<nat>, classes: seq<RefSet>, r: set<nat>) {
    forall x: nat :: x in r <==> ClassHolds(set_, classes, x)
  }

  ghost predicate ClassHolds(set_: set<nat>, classes: seq<RefSet>, x: nat) {
    exists c :: c in set_ && c < |classes| && x in classes[c].refs
  }

  method Substitute(set_: set<nat>, classes: seq<RefSet>) returns (r: set<nat>)
    ensures IsSubstituted(set_, classes, r)
  {
    r := {};
    for c := 0 to |classes|
      invariant forall x: nat :: x in r <==> exists d :: d in set_ && d < c && x in classes[d].refs
    {
      if c in set_ {
        r := r + classes[c].refs;
      }
    }
  }

  /** All that is known of the linear extension. */
  ghost predicate Ordered(rows: seq<set<nat>>, cols: seq<set<nat>>, items: seq<nat>, isExtent: seq<bool>,
                          exts: seq<set<nat>>, ints: seq<set<nat>>, lasts: seq<nat>) {
    && ItemsInRange(rows, cols, items, isExtent) && TopDown(rows, cols, items, isExtent)
    && Linked(rows, cols, items, isExtent, 0, exts, ints, lasts)
    && (forall o: nat | o < |rows| :: HasItem(items, isExtent, true, o))
    && forall a: nat | a < |cols| :: HasItem(items, isExtent, false, a)
  }

  ghost predicate HasItem(items: seq<nat>, isExtent: seq<bool>, kind: bool, e: nat) {
    exists p :: 0 <= p < |items| && p < |isExtent| && isExtent[p] == kind && items[p] == e
  }

  lemma OrderedAt(rows: seq<set<nat>>, cols: seq<set<nat>>, items: seq<nat>, isExtent: seq<bool>,
                  exts: seq<set<nat>>, ints: seq<set<nat>>, lasts: seq<nat>, c: nat)
    requires Ordered(rows, cols, items, isExtent, exts, ints, lasts) && c < |lasts|
    ensures |exts| == |ints| == |lasts| && ItemsInRange(rows, cols, items, isExtent) && lasts[c] < |items|
    ensures IsItemConcept(rows, cols, items, isExtent, lasts[c], exts[c], ints[c])
  {}

  /** The object in a concept's extent is the one with its intent. */
  lemma ObjectOf(rows: seq<set<nat>>, cols: seq<set<nat>>, items: seq<nat>, isExtent: seq<bool>,
                 exts: seq<set<nat>>, ints: seq<set<nat>>, lasts: seq<nat>, c: nat, o: nat)
    requires Ordered(rows, cols, items, isExtent, exts, ints, lasts) && c < |lasts| && lasts[c] < |items|
    ensures c < |exts| && (o in exts[c]
      <==> o < |rows| && rows[o] == ConceptValue(rows, cols, items, isExtent, lasts, c))
  {
    OrderedAt(rows, cols, items, isExtent, exts, ints, lasts, c);
    if o < |rows| && rows[o] == ConceptValue(rows, cols, items, isExtent, lasts, c) {
      assert HasItem(items, isExtent, true, o);
      var p :| 0 <= p < |items| && isExtent[p] && items[p] == o;
      OnlyItem(rows, cols, items, isExtent, exts, ints, lasts, c, p);
    }
  }

  lemma AttributeOf(rows: seq<set<nat>>, cols: seq<set<nat>>, items: seq<nat>, isExtent: seq<bool>,
                    exts: seq<set<nat>>, ints: seq<set<nat>>, lasts: seq<nat>, c: nat, a: nat)
    requires Ordered(rows, cols, items, isExtent, exts, ints, lasts) && c < |lasts| && lasts[c] < |items|
    ensures c < |ints| && (a in ints[c]
      <==> a < |cols| && Dom(cols, a) == ConceptValue(rows, cols, items, isExtent, lasts, c))
  {
    OrderedAt(rows, cols, items, isExtent, exts, ints, lasts, c);
    hide Dom;
    if a < |cols| && Dom(cols, a) == ConceptValue(rows, cols, items, isExtent, lasts, c) {
      assert HasItem(items, isExtent, false, a);
      var p :| 0 <= p < |items| && !isExtent[p] && items[p] == a;
      OnlyItem(rows, cols, items, isExtent, exts, ints, lasts, c, p);
    }
  }

  /** Every item has its concept. */
  lemma ConceptOf(rows: seq<set<nat>>, cols: seq<set<nat>>, items: seq<nat>, isExtent: seq<bool>,
                  exts: seq<set<nat>>, ints: seq<set<nat>>, lasts: seq<nat>, kind: bool, e: nat) returns (c: nat)
    requires Ordered(rows, cols, items, isExtent, exts, ints, lasts) && e < if kind then |rows| else |cols|
    ensures c < |lasts| && lasts[c] < |items| && ItemsInRange(rows, cols, items, isExtent)
    ensures ConceptValue(rows, cols, items, isExtent, lasts, c) == Value(rows, cols, kind, e)
  {
    hide Value;
    assert HasItem(items, isExtent, kind, e);
    var p :| 0 <= p < |items| && isExtent[p] == kind && items[p] == e;
    assert HasLast(rows, cols, items, isExtent, lasts, p);
    c :| 0 <= c < |lasts|
      && (lasts[c] == p || (lasts[c] == p + 1 && p + 1 < |items| && Coupled(rows, cols, items, isExtent, p + 1)));
  }

  /** The concepts over the original objects and attributes. */
  ghost predicate IsConceptList(objs: seq<RefSet>, attrs: seq<RefSet>, items: seq<nat>, isExtent: seq<bool>,
                                exts: seq<set<nat>>, ints: seq<set<nat>>, lasts: seq<nat>, concepts: seq<HConcept>) {
    && Ordered(Values(objs), Values(attrs), items, isExtent, exts, ints, lasts) && |concepts| == |exts|
    && forall c | 0 <= c < |concepts| :: (
         && lasts[c] < |items|
           && concepts[c].values == ConceptValue(Values(objs), Values(attrs), items, isExtent, lasts, c)
         && IsSubstituted(exts[c], objs, concepts[c].extent) && IsSubstituted(ints[c], attrs, concepts[c].intent))
  }

  lemma ConceptIsRight(objs: seq<RefSet>, attrs: seq<RefSet>, items: seq<nat>, isExtent: seq<bool>,
                       exts: seq<set<nat>>, ints: seq<set<nat>>, lasts: seq<nat>, concepts: seq<HConcept>, c: nat)
    requires IsConceptList(objs, attrs, items, isExtent, exts, ints, lasts, concepts) && c < |concepts|
    requires (forall k | 0 <= k < |objs| :: objs[k].refs != {}) && forall k | 0 <= k < |attrs| :: attrs[k].refs != {}
    ensures IsConcept(objs, attrs, concepts[c], |attrs|)
  {
    var rows, cols, k := Values(objs), Values(attrs), concepts[c];
    OrderedAt(rows, cols, items, isExtent, exts, ints, lasts, c);
    assert k.values == ConceptValue(rows, cols, items, isExtent, lasts, c);
    assert IsSubstituted(exts[c], objs, k.extent) && IsSubstituted(ints[c], attrs, k.intent);
    NotEmpty(rows, cols, items, isExtent, exts, ints, lasts, c, objs, attrs, k);
    hide IsConceptList, Ordered, IsItemConcept, ConceptValue, Dominators, Dom;
    forall o: nat ensures o in k.extent <==> ObjectsOf(objs, k.values, o) {
      ExtentHolds(rows, cols, items, isExtent, exts, ints, lasts, c, objs, k, o);
    }
    forall a: nat ensures a in k.intent <==> AttributesOf(attrs, k.values, a, |attrs|) {
      IntentHolds(rows, cols, items, isExtent, exts, ints, lasts, c, attrs, k, a);
    }
  }

  lemma NotEmpty(rows: seq<set<nat>>, cols: seq<set<nat>>, items: seq<nat>, isExtent: seq<bool>, exts: seq<set<nat>>,
                 ints: seq<set<nat>>,
                 lasts: seq<nat>, c: nat, objs: seq<RefSet>, attrs: seq<RefSet>, k: HConcept)
    requires Ordered(rows, cols, items, isExtent, exts, ints, lasts) && c < |lasts| == |exts| == |ints|
      && |rows| == |objs| && |cols| == |attrs|
    requires IsSubstituted(exts[c], objs, k.extent) && IsSubstituted(ints[c], attrs, k.intent)
    requires (forall k | 0 <= k < |objs| :: objs[k].refs != {}) && forall k | 0 <= k < |attrs| :: attrs[k].refs != {}
    ensures k.extent != {} || k.intent != {}
  {
    OrderedAt(rows, cols, items, isExtent, exts, ints, lasts, c);
    var e := items[lasts[c]];
    hide Ordered, Coupled;
    if isExtent[lasts[c]] {
      var x :| x in objs[e].refs;
      assert e in exts[c] && ClassHolds(exts[c], objs, x);
    } else {
      var x :| x in attrs[e].refs;
      assert e in ints[c] && ClassHolds(ints[c], attrs, x);
    }
  }

  lemma ExtentHolds(rows: seq<set<nat>>, cols: seq<set<nat>>, items: seq<nat>, isExtent: seq<bool>,
                    exts: seq<set<nat>>, ints: seq<set<nat>>,
                    lasts: seq<nat>, c: nat, objs: seq<RefSet>, k: HConcept, o: nat)
    requires Ordered(rows, cols, items, isExtent, exts, ints, lasts) && c < |lasts| == |exts| && lasts[c] < |items|
    requires ItemsInRange(rows, cols, items, isExtent) && rows == Values(objs)
    requires IsSubstituted(exts[c], objs, k.extent) && k.values == ConceptValue(rows, cols, items, isExtent, lasts, c)
    ensures o in k.extent <==> ObjectsOf(objs, k.values, o)
  {
    hide Ordered, ConceptValue;
    if ClassHolds(exts[c], objs, o) {
      var d :| d in exts[c] && d < |objs| && o in objs[d].refs;
      ObjectOf(rows, cols, items, isExtent, exts, ints, lasts, c, d);
    }
    if ObjectsOf(objs, k.values, o) {
      var d :| 0 <= d < |objs| && objs[d].values == k.values && o in objs[d].refs;
      ObjectOf(rows, cols, items, isExtent, exts, ints, lasts, c, d);
    }
  }

  lemma IntentHolds(rows: seq<set<nat>>, cols: seq<set<nat>>, items: seq<nat>, isExtent: seq<bool>,
                    exts: seq<set<nat>>, ints: seq<set<nat>>,
                    lasts: seq<nat>, c: nat, attrs: seq<RefSet>, k: HConcept, a: nat)
    requires Ordered(rows, cols, items, isExtent, exts, ints, lasts) && c < |lasts| == |ints| && lasts[c] < |items|
    requires ItemsInRange(rows, cols, items, isExtent) && cols == Values(attrs)
    requires IsSubstituted(ints[c], attrs, k.intent) && k.values == ConceptValue(rows, cols, items, isExtent, lasts, c)
    ensures a in k.intent <==> AttributesOf(attrs, k.values, a, |attrs|)
  {
    hide Ordered, ConceptValue, Dominators, Dom;
    if ClassHolds(ints[c], attrs, a) {
      var d :| d in ints[c] && d < |attrs| && a in attrs[d].refs;
      AttributeOf(rows, cols, items, isExtent, exts, ints, lasts, c, d);
      DomIsDominators(attrs, d);
    }
    if AttributesOf(attrs, k.values, a, |attrs|) {
      var d :| 0 <= d < |attrs| && Dominators(attrs, d) == k.values && a in attrs[d].refs;
      DomIsDominators(attrs, d);
      AttributeOf(rows, cols, items, isExtent, exts, ints, lasts, c, d);
    }
  }

  /** The list holds all object concepts and all attribute concepts, each once, in a linear
      extension. */
  lemma ListIsComplete(objs: seq<RefSet>, attrs: seq<RefSet>, items: seq<nat>, isExtent: seq<bool>,
                       exts: seq<set<nat>>, ints: seq<set<nat>>, lasts: seq<nat>, concepts: seq<HConcept>,
                           v: seq<set<nat>>)
    requires IsConceptList(objs, attrs, items, isExtent, exts, ints, lasts, concepts)
    requires (forall k | 0 <= k < |objs| :: objs[k].refs != {}) && forall k | 0 <= k < |attrs| :: attrs[k].refs != {}
    requires |v| == |concepts| && forall c | 0 <= c < |v| :: v[c] == concepts[c].values
    ensures ConceptsUpTo(objs, attrs, concepts, |attrs|) && LinearExtension(v)
  {
    var rows, cols := Values(objs), Values(attrs);
    LinextIsExtension(rows, cols, items, isExtent, exts, ints, lasts, v);
    forall c | 0 <= c < |concepts| ensures IsConcept(objs, attrs, concepts[c], |attrs|) {
      ConceptIsRight(objs, attrs, items, isExtent, exts, ints, lasts, concepts, c);
    }
    forall o | 0 <= o < |objs| ensures HasConcept(concepts, objs[o].values) {
      var c := ConceptOf(rows, cols, items, isExtent, exts, ints, lasts, true, o);
      assert concepts[c].values == objs[o].values;
    }
    forall a | 0 <= a < |attrs| ensures HasConcept(concepts, Dominators(attrs, a)) {
      var c := ConceptOf(rows, cols, items, isExtent, exts, ints, lasts, false, a);
      DomIsDominators(attrs, a);
      assert concepts[c].values == Dominators(attrs, a);
    }
    assert forall k, l | 0 <= k < l < |concepts| :: v[k] != v[l];
  }

  // ---- the order ----

  /** Whether T is S or lies below it, from the first object and the first attribute of each;
      -1 stands for none. */
  function IsBelow(rows: seq<set<nat>>, cols: seq<set<nat>>, so: int, sa: int, to: int, ta: int): bool
    requires so < |rows| && to < |rows| && sa < |cols| && ta < |cols| && (0 <= so || 0 <= sa) && (0 <= to || 0 <= ta)
    requires 0 <= so ==> forall a | a in rows[so] :: a < |cols|
  {
    if 0 <= so then
      if 0 <= to then rows[so] <= rows[to]
      else forall a | a in rows[so] :: cols[ta] <= cols[a]
    else if 0 <= ta then cols[ta] <= cols[sa]
    else sa in rows[to]
  }

  /** The value of a concept, by its first object and its first attribute. */
  ghost predicate HasFirsts(rows: seq<set<nat>>, cols: seq<set<nat>>, value: set<nat>, o: int, a: int) {
    && -1 <= o < |rows| && -1 <= a < |cols| && (0 <= o || 0 <= a)
    && (0 <= o ==> value == rows[o]) && (0 <= a ==> value == Dom(cols, a))
  }

  lemma IsBelowMeans(rows: seq<set<nat>>, cols: seq<set<nat>>, s: set<nat>, t: set<nat>, so: int, sa: int, to: int,
                     ta: int)
    requires Clarified(rows, cols) && HasFirsts(rows, cols, s, so, sa) && HasFirsts(rows, cols, t, to, ta)
    ensures 0 <= so ==> forall a | a in rows[so] :: a < |cols|
    ensures IsBelow(rows, cols, so, sa, to, ta) <==> s <= t
  {
    if 0 <= so {
      assert rows[so] <= Range(|cols|);
    } else {
      assert sa in Dom(cols, sa);
      if 0 > ta { DomInside(rows, cols, sa, to); }
    }
  }

  method Firsts(sets: seq<set<nat>>, ghost n: nat) returns (firsts: seq<int>)
    requires forall c | 0 <= c < |sets| :: sets[c] <= Range(n)
    ensures |firsts| == |sets|
      && forall c | 0 <= c < |sets| ::
        if sets[c] == {} then firsts[c] == -1 else 0 <= firsts[c] && firsts[c] as nat in sets[c]
  {
    firsts := [];
    for c := 0 to |sets|
      invariant |firsts| == c
        && forall d | 0 <= d < c ::
          if sets[d] == {} then firsts[d] == -1 else 0 <= firsts[d] && firsts[d] as nat in sets[d]
    {
      if sets[c] == {} {
        firsts := firsts + [-1];
      } else {
        var x := Derivation.FirstIn(sets[c], n);
        firsts := firsts + [x];
      }
    }
  }

  /** What the firsts tell of every concept. */
  ghost predicate AllFirsts(rows: seq<set<nat>>, cols: seq<set<nat>>, v: seq<set<nat>>, os: seq<int>, as_: seq<int>) {
    |os| == |as_| == |v| && forall c | 0 <= c < |v| :: HasFirsts(rows, cols, v[c], os[c], as_[c])
  }

  lemma FirstsTell(rows: seq<set<nat>>, cols: seq<set<nat>>, items: seq<nat>, isExtent: seq<bool>,
                   exts: seq<set<nat>>, ints: seq<set<nat>>, lasts: seq<nat>, v: seq<set<nat>>, os: seq<int>,
                       as_: seq<int>)
    requires Ordered(rows, cols, items, isExtent, exts, ints, lasts)
      && |v| == |lasts| == |os| == |as_| == |exts| == |ints|
    requires forall c | 0 <= c < |v| ::
        lasts[c] < |items| && v[c] == ConceptValue(rows, cols, items, isExtent, lasts, c)
    requires forall c | 0 <= c < |v| :: if exts[c] == {} then os[c] == -1 else 0 <= os[c] && os[c] as nat in exts[c]
    requires forall c | 0 <= c < |v| :: if ints[c] == {} then as_[c] == -1 else 0 <= as_[c] && as_[c] as nat in ints[c]
    ensures AllFirsts(rows, cols, v, os, as_)
  {
    hide Ordered;
    forall c | 0 <= c < |v| ensures HasFirsts(rows, cols, v[c], os[c], as_[c]) {
      OrderedAt(rows, cols, items, isExtent, exts, ints, lasts, c);
      if 0 <= os[c] { ObjectOf(rows, cols, items, isExtent, exts, ints, lasts, c, os[c]); }
      if 0 <= as_[c] { AttributeOf(rows, cols, items, isExtent, exts, ints, lasts, c, as_[c]); }
    }
  }

  lemma LabelsInRange(rows: seq<set<nat>>, cols: seq<set<nat>>, items: seq<nat>, isExtent: seq<bool>,
                      exts: seq<set<nat>>, ints: seq<set<nat>>, lasts: seq<nat>)
    requires Ordered(rows, cols, items, isExtent, exts, ints, lasts)
    ensures |exts| == |ints| == |lasts|
      && forall c | 0 <= c < |lasts| :: lasts[c] < |items| && exts[c] <= Range(|rows|) && ints[c] <= Range(|cols|)
  {
    forall c | 0 <= c < |lasts| ensures lasts[c] < |items| && exts[c] <= Range(|rows|) && ints[c] <= Range(|cols|) {
      OrderedAt(rows, cols, items, isExtent, exts, ints, lasts, c);
    }
  }

  /** The lower covers of every concept, found by looking back through the extension. */
  method ComputeOrder(rows: seq<set<nat>>, cols: seq<set<nat>>, os: seq<int>, as_: seq<int>, ghost v: seq<set<nat>>)
      returns (children: seq<seq<nat>>)
    requires Clarified(rows, cols) && AllFirsts(rows, cols, v, os, as_) && LinearExtension(v)
    ensures Found(v, children, |v|)
  {
    var n := |os|;
    children := [];
    var visited := new bool[n](p => false);
    assert HasseScan.Marks(visited[..]) == {};
    assert n == |v|;
    hide LinearExtension, Found, Clarified, AllFirsts;
    NothingFound(v);
    for pos := 0 to n
      invariant HasseScan.Marks(visited[..]) == {} && Found(v, children, pos)
    {
      var test := ParentTest(rows, cols, os, as_, v, pos);
      var mine := ScanBack(v, children, pos, visited, test);
      MoreFound(v, children, pos, mine);
      children := children + [mine];
    }
  }

  method ParentTest(rows: seq<set<nat>>, cols: seq<set<nat>>, os: seq<int>, as_: seq<int>, ghost v: seq<set<nat>>,
                    pos: nat) returns (test: nat -> bool)
    requires Clarified(rows, cols) && AllFirsts(rows, cols, v, os, as_) && pos < |v|
    ensures forall t | 0 <= t < pos :: test(t) <==> v[pos] <= v[t]
  {
    var so, sa := os[pos], as_[pos];
    assert HasFirsts(rows, cols, v[pos], so, sa);
    IsBelowMeans(rows, cols, v[pos], v[pos], so, sa, so, sa);
    test := (t: nat) => t < |os| && t < |as_| && os[t] < |rows| && as_[t] < |cols| && (0 <= os[t] || 0 <= as_[t])
      && IsBelow(rows, cols, so, sa, os[t], as_[t]);
    forall t | 0 <= t < pos ensures test(t) <==> v[pos] <= v[t] {
      assert HasFirsts(rows, cols, v[t], os[t], as_[t]);
      IsBelowMeans(rows, cols, v[pos], v[t], so, sa, os[t], as_[t]);
    }
  }

  // ---- the whole ----

  /** The merged list of the two partitions holds every object and every attribute. */
  lemma AllListed(items: seq<nat>, isExtent: seq<bool>, z: seq<nat>, xs: seq<nat>, before: seq<nat>, after: seq<nat>,
                  n: nat, m: nat)
    requires ListedBy(items, isExtent, z, xs, before, after)
    requires (forall o: nat | o < n :: o in z) && forall a: nat | a < m :: a in xs
    ensures forall o: nat | o < n :: HasItem(items, isExtent, true, o)
    ensures forall a: nat | a < m :: HasItem(items, isExtent, false, a)
  {
    forall o: nat | o < n ensures HasItem(items, isExtent, true, o) {
      assert o in z;
      var k :| 0 <= k < |z| && z[k] == o;
      assert items[k + before[k]] == o && isExtent[k + before[k]];
    }
    forall a: nat | a < m ensures HasItem(items, isExtent, false, a) {
      assert a in xs;
      var i :| 0 <= i < |xs| && xs[i] == a;
      assert items[i + after[i]] == a && !isExtent[i + after[i]];
    }
  }

  method ComputeLinext(rows: seq<set<nat>>, cols: seq<set<nat>>)
      returns (exts: seq<set<nat>>, ints: seq<set<nat>>, ghost items: seq<nat>, ghost isExtent_: seq<bool>,
               ghost lasts: seq<nat>)
    requires Clarified(rows, cols) && |rows| > 0 && |cols| > 0
    ensures Ordered(rows, cols, items, isExtent_, exts, ints, lasts)
  {
    ghost var ys, xs, t;
    var objects, attributes, list, isExtent;
    objects, attributes, ys, xs := Partitions(rows, cols);
    list, isExtent, t := Merge(rows, |cols|, objects, attributes, ys, xs);
    items, isExtent_ := t.items, t.isExtent;
    ghost var z := Reversed(ys);
    SortedInRange(rows, cols, z, xs);
    MergedIsTopDown(rows, cols, z, xs, t.before, t.after, items, isExtent);
    AllListed(items, isExtent, z, xs, t.before, t.after, |rows|, |cols|);
    assert 0 in z && 0 in xs && |list| == |z| + |xs|;
    hide Clarified, Linked, TopDown, Walk, ListedBy, Sorted, Input;
    exts, ints, lasts := Linext(rows, cols, list, isExtent, items);
  }

  method SubstituteAll(sets: seq<set<nat>>, classes: seq<RefSet>) returns (refs: seq<set<nat>>)
    ensures |refs| == |sets| && forall c | 0 <= c < |sets| :: IsSubstituted(sets[c], classes, refs[c])
  {
    hide IsSubstituted;
    refs := [];
    for c := 0 to |sets|
      invariant |refs| == c && forall d | 0 <= d < c :: IsSubstituted(sets[d], classes, refs[d])
    {
      var r := Substitute(sets[c], classes);
      refs := refs + [r];
    }
  }

  ghost function AsConcepts(values: seq<set<nat>>, rext: seq<set<nat>>, rint: seq<set<nat>>): (r: seq<HConcept>)
    requires |rext| == |rint| == |values|
    ensures |r| == |values| && forall c | 0 <= c < |r| :: r[c] == HConcept(rint[c], rext[c], values[c])
  {
    seq(|values|, c requires 0 <= c < |values| => HConcept(rint[c], rext[c], values[c]))
  }

  ghost function ConceptValues(rows: seq<set<nat>>, cols: seq<set<nat>>, items: seq<nat>, isExtent: seq<bool>,
                               lasts: seq<nat>): (v: seq<set<nat>>)
    requires ItemsInRange(rows, cols, items, isExtent) && forall c | 0 <= c < |lasts| :: lasts[c] < |items|
    ensures |v| == |lasts| && forall c | 0 <= c < |v| :: v[c] == ConceptValue(rows, cols, items, isExtent, lasts, c)
  {
    seq(|lasts|, c requires 0 <= c < |lasts| => ConceptValue(rows, cols, items, isExtent, lasts, c))
  }

  /** Concepts in a linear extension with their covers, over the original context. */
  lemma PosetOf(ctx: Context, objs: seq<RefSet>, attrs: seq<RefSet>, concepts: seq<HConcept>, v: seq<set<nat>>,
                children: seq<seq<nat>>,
                rext: seq<set<nat>>, rint: seq<set<nat>>)
    requires ctx.Valid() && Classed(ctx.rows, |ctx.cols|, objs, attrs) && ConceptsUpTo(objs, attrs, concepts, |attrs|)
      && LinearExtension(v)
    requires |v| == |concepts| == |rext| == |rint|
      && (forall c | 0 <= c < |v| :: concepts[c] == HConcept(rint[c], rext[c], v[c])) && Found(v, children, |v|)
    ensures |children| == |v| && IsAocPoset(ctx, Extents(ctx, attrs, v), AsSets(children), rext, rint)
  {
    var order: seq<nat> := seq(|concepts|, i requires 0 <= i < |concepts| => i);
    forall i: nat | i < |concepts| ensures order[i] == i && i in order {
      assert order[i] == i;
    }
    assert InOrder(concepts, order) == v;
    hide LinearExtension, Found, ConceptsUpTo, Classed, IsAocPoset;
    ResultIsPoset(ctx, objs, attrs, concepts, order, children, rext, rint);
  }

  lemma NoClassesLeft(ctx: Context, objs: seq<RefSet>, attrs: seq<RefSet>)
    requires ctx.Valid() && Classed(ctx.rows, |ctx.cols|, objs, attrs)
    ensures |attrs| == 0 <==> |ctx.cols| == 0
    ensures |objs| == 0 <==> |ctx.rows| == 0
  {
    if |ctx.cols| > 0 { assert InClass(attrs, 0); }
    if |attrs| > 0 { var a :| a in attrs[0].refs; assert attrs[0].refs <= Range(|ctx.cols|); }
    if |ctx.rows| > 0 { assert InClass(objs, 0); }
    if |objs| > 0 { var o :| o in objs[0].refs; assert objs[0].refs <= Range(|ctx.rows|); }
  }

  lemma ClassesHold(ctx: Context, objs: seq<RefSet>, attrs: seq<RefSet>)
    requires Classed(ctx.rows, |ctx.cols|, objs, attrs)
    ensures (forall k | 0 <= k < |objs| :: objs[k].refs != {}) && forall k | 0 <= k < |attrs| :: attrs[k].refs != {}
  {}

  /** Pluton. */
  method BuildPluton(ctx: Context, hash: set<nat> -> nat)
      returns (ghost ext: seq<set<nat>>, rext: seq<set<nat>>, rint: seq<set<nat>>, children: seq<seq<nat>>)
    requires ctx.Valid() && (|ctx.rows| > 0 || |ctx.cols| == 0)
    ensures |children| == |ext| && (IsAocPoset(ctx, ext, AsSets(children), rext, rint) <==> |ctx.rows| > 0)
    ensures |ctx.rows| > 0 ==> LabelledOnce(ctx, rext, rint)
    ensures forall p | 0 <= p < |children| :: NoRepeats(children[p])
  {
    var objs, attrs := BuildClasses(ctx, hash);
    NoClassesLeft(ctx, objs, attrs);
    ClassesHold(ctx, objs, attrs);
    ClassesAreClarified(ctx, objs, attrs);
    hide Context.Valid, Classed, Clarified, IsAocPoset, LabelledOnce;
    if |attrs| == 0 {
      ext, rext, rint, children := LoneConcept(ctx, objs, attrs);
    } else {
      ext, rext, rint, children := BuildOrder(ctx, objs, attrs);
    }
    if |ctx.rows| > 0 { PosetIsLabelledOnce(ctx, ext, AsSets(children), rext, rint); }
  }

  method BuildOrder(ctx: Context, objs: seq<RefSet>, attrs: seq<RefSet>)
      returns (ghost ext: seq<set<nat>>, rext: seq<set<nat>>, rint: seq<set<nat>>, children: seq<seq<nat>>)
    requires ctx.Valid() && Classed(ctx.rows, |ctx.cols|, objs, attrs) && |objs| > 0 && |attrs| > 0
      && Clarified(Values(objs), Values(attrs))
    requires (forall k | 0 <= k < |objs| :: objs[k].refs != {}) && forall k | 0 <= k < |attrs| :: attrs[k].refs != {}
    ensures |children| == |ext| && IsAocPoset(ctx, ext, AsSets(children), rext, rint)
    ensures forall p | 0 <= p < |children| :: NoRepeats(children[p])
  {
    var rows := seq(|objs|, c requires 0 <= c < |objs| => objs[c].values);
    var cols := seq(|attrs|, c requires 0 <= c < |attrs| => attrs[c].values);
    assert rows == Values(objs) && cols == Values(attrs);
    hide Context.Valid, Classed, Clarified, IsAocPoset, LinearExtension, Found, ConceptsUpTo, Values, Ordered,
        IsSubstituted, AllFirsts, ItemsInRange;
    ghost var items, isExtent, lasts;
    var exts, ints;
    exts, ints, items, isExtent, lasts := ComputeLinext(rows, cols);
    LabelsInRange(rows, cols, items, isExtent, exts, ints, lasts);
    OrderedItems(rows, cols, items, isExtent, exts, ints, lasts);
    ghost var v := ConceptValues(rows, cols, items, isExtent, lasts);
    rext := SubstituteAll(exts, objs);
    rint := SubstituteAll(ints, attrs);
    ghost var concepts := AsConcepts(v, rext, rint);
    ListIsComplete(objs, attrs, items, isExtent, exts, ints, lasts, concepts, v);
    var os := Firsts(exts, |rows|);
    var as_ := Firsts(ints, |cols|);
    FirstsTell(rows, cols, items, isExtent, exts, ints, lasts, v, os, as_);
    children := ComputeOrder(rows, cols, os, as_, v);
    ext := Extents(ctx, attrs, v);
    PosetOf(ctx, objs, attrs, concepts, v, children, rext, rint);
  }

  lemma OrderedItems(rows: seq<set<nat>>, cols: seq<set<nat>>, items: seq<nat>, isExtent: seq<bool>,
                     exts: seq<set<nat>>, ints: seq<set<nat>>, lasts: seq<nat>)
    requires Ordered(rows, cols, items, isExtent, exts, ints, lasts)
    ensures ItemsInRange(rows, cols, items, isExtent)
  {}

  /** Without attributes there is one concept, with all objects. */
  method LoneConcept(ctx: Context, objs: seq<RefSet>, attrs: seq<RefSet>)
      returns (ghost ext: seq<set<nat>>, rext: seq<set<nat>>, rint: seq<set<nat>>, children: seq<seq<nat>>)
    requires ctx.Valid() && Classed(ctx.rows, |ctx.cols|, objs, attrs) && |attrs| == 0 == |ctx.cols|
    requires |objs| == 0 <==> |ctx.rows| == 0
    ensures |children| == |ext| && (IsAocPoset(ctx, ext, AsSets(children), rext, rint) <==> |ctx.rows| > 0)
    ensures forall p | 0 <= p < |children| :: NoRepeats(children[p])
  {
    var all := Range(|objs|);
    var o := Substitute(all, objs);
    rext, rint, children := [o], [{}], [[]];
    ghost var concepts := [HConcept({}, o, {})];
    ext := Extents(ctx, attrs, [{}]);
    if |objs| > 0 {
      LoneIsRight(ctx, objs, attrs, o);
      PosetOf(ctx, objs, attrs, concepts, [{}], children, rext, rint);
    } else {
      assert !Introduces(ctx, ext[0]);
      assert ext[0] in ext;
    }
  }

  lemma LoneIsRight(ctx: Context, objs: seq<RefSet>, attrs: seq<RefSet>, o: set<nat>)
    requires ctx.Valid() && Classed(ctx.rows, |ctx.cols|, objs, attrs) && |attrs| == 0 == |ctx.cols| && |objs| > 0
    requires IsSubstituted(Range(|objs|), objs, o)
    ensures ConceptsUpTo(objs, attrs, [HConcept({}, o, {})], 0) && LinearExtension([{}]) && Found([{}], [[]], 1)
  {
    var concepts := [HConcept({}, o, {})];
    forall c | 0 <= c < |objs| ensures objs[c].values == {} {
      assert objs[c].values <= Range(0);
    }
    forall x: nat ensures x in o <==> ObjectsOf(objs, {}, x) {
      assert ClassHolds(Range(|objs|), objs, x) <==> x in o;
    }
    var x :| x in objs[0].refs;
    assert ClassHolds(Range(|objs|), objs, x);
    assert concepts[0].values == {};
    var v: seq<set<nat>> := [{}];
    BelowIsOrder(v);
    assert CoverGraph(v)[0] == {};
  }
}
