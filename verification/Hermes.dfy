/** Hermes: classes of equal objects and attributes, the domination relation between the
    attribute classes, and the concepts they introduce as sets of attribute classes. */
module Hermes {
  import opened FiniteSets
  import opened FormalContext
  import opened Graphs
  import opened Grouping
  import opened AocPoset
  import opened HasseScan
  import Diagram
  import BucketSort
  import Derivation

  // ---- classes ----

  ghost predicate RefsCover(sets: seq<RefSet>, n: nat) {
    && (forall c | 0 <= c < |sets| :: sets[c].refs != {} && sets[c].refs <= Range(n))
    && forall x: nat | x < n :: InClass(sets, x)
  }

  ghost predicate InClass(sets: seq<RefSet>, x: nat) {
    exists c :: 0 <= c < |sets| && x in sets[c].refs
  }

  ghost predicate DistinctValues(sets: seq<RefSet>) {
    forall c, d | 0 <= c < d < |sets| :: sets[c].values != sets[d].values
  }

  ghost predicate ValuesWithin(sets: seq<RefSet>, n: nat) {
    forall c | 0 <= c < |sets| :: sets[c].values <= Range(n)
  }

  /** Two classes are related when their members are, and each side lists its partners. */
  ghost predicate Related(r: seq<set<nat>>, xs: seq<RefSet>, ys: seq<RefSet>) {
    forall c: nat, d: nat, x: nat, y: nat | c < |xs| && d < |ys| && x < |r| && x in xs[c].refs && y in ys[d].refs ::
      RelatedAt(r, xs, ys, c, d, x, y)
  }

  ghost predicate RelatedAt(r: seq<set<nat>>, xs: seq<RefSet>, ys: seq<RefSet>, c: nat, d: nat, x: nat, y: nat)
    requires c < |xs| && d < |ys| && x < |r|
  {
    (y in r[x] <==> d in xs[c].values) && (y in r[x] <==> c in ys[d].values)
  }

  /** The classes of a relation r from |r| elements to n elements. */
  ghost predicate Classed(r: seq<set<nat>>, n: nat, xs: seq<RefSet>, ys: seq<RefSet>) {
    && RefsCover(xs, |r|) && RefsCover(ys, n) && Related(r, xs, ys)
    && DistinctValues(xs) && DistinctValues(ys) && ValuesWithin(xs, |ys|) && ValuesWithin(ys, |xs|)
  }

  /** One set per element, with its row. */
  method Singles(r: seq<set<nat>>) returns (sets: seq<RefSet>)
    ensures |sets| == |r| && forall x | 0 <= x < |r| :: sets[x] == RefSet({x}, r[x])
  {
    sets := [];
    for x := 0 to |r|
      invariant |sets| == x && forall k | 0 <= k < x :: sets[k] == RefSet({k}, r[k])
    {
      sets := sets + [RefSet({x}, r[x])];
    }
  }

  /** A class of singles holds the elements with its values. */
  lemma SinglesGrouped(sets: seq<RefSet>, classes: seq<RefSet>, c: nat, x: nat)
    requires IsGrouping(sets, classes) && c < |classes| && forall k | 0 <= k < |sets| :: sets[k].refs == {k}
    ensures x in classes[c].refs <==> x < |sets| && sets[x].values == classes[c].values
  {
    assert classes[c].refs == Gather(sets, classes[c].values, 0, |sets|);
    if x < |sets| && sets[x].values == classes[c].values { assert x in sets[x].refs; }
  }

  lemma SinglesCover(sets: seq<RefSet>, classes: seq<RefSet>)
    requires IsGrouping(sets, classes) && forall k | 0 <= k < |sets| :: sets[k].refs == {k}
    ensures RefsCover(classes, |sets|)
  {
    forall c | 0 <= c < |classes| ensures classes[c].refs != {} && classes[c].refs <= Range(|sets|) {
      assert HasValues(classes, classes[c].values, 0, |classes|);
      assert HasValues(sets, classes[c].values, 0, |sets|);
      var x :| 0 <= x < |sets| && sets[x].values == classes[c].values;
      forall y ensures y in classes[c].refs <==> 0 <= y < |sets| && sets[y].values == classes[c].values {
        if y >= 0 { SinglesGrouped(sets, classes, c, y); }
      }
    }
    forall x: nat | x < |sets| ensures InClass(classes, x) {
      assert HasValues(sets, sets[x].values, 0, |sets|);
      assert HasValues(classes, sets[x].values, 0, |classes|);
      var c :| 0 <= c < |classes| && classes[c].values == sets[x].values;
      SinglesGrouped(sets, classes, c, x);
    }
  }

  /** Grouping one side, then the other side by the classes of the first. */
  lemma TwoPasses(r: seq<set<nat>>, n: nat, singles: seq<RefSet>, xs0: seq<RefSet>, others: seq<RefSet>,
                  ys0: seq<RefSet>,
                  ys: seq<RefSet>, xs: seq<RefSet>)
    requires |singles| == |r| && forall x | 0 <= x < |r| :: singles[x] == RefSet({x}, r[x])
    requires |others| == n && (forall y | 0 <= y < n :: others[y].refs == {y})
      && forall x | 0 <= x < |r| :: r[x] <= Range(n)
    requires IsGrouping(singles, xs0) && Synchronised(xs0, others, ys0)
    requires IsGrouping(ys0, ys) && Synchronised(ys, xs0, xs)
    ensures Classed(r, n, xs, ys)
  {
    SinglesCover(singles, xs0);
    SinglesCover(ys0, ys);
    CoverKept(xs0, xs, |r|);
    forall c: nat, d: nat, x: nat, y: nat | c < |xs| && d < |ys| && x < |r| && x in xs[c].refs && y in ys[d].refs
      ensures RelatedAt(r, xs, ys, c, d, x, y)
    {
      TwoPassesRelated(r, n, singles, xs0, others, ys0, ys, xs, c, d, x, y);
    }
    ClassValues(r, n, singles, xs0);
    forall d | 0 <= d < |ys| ensures ys[d].values <= Range(|xs|) {
      assert HasValues(ys, ys[d].values, 0, |ys|);
      assert HasValues(ys0, ys[d].values, 0, |ys0|);
      var y :| 0 <= y < |ys0| && ys0[y].values == ys[d].values;
    }
    forall c, c' | 0 <= c < c' < |xs| ensures xs[c].values != xs[c'].values {
      StillDistinct(r, n, singles, xs0, others, ys0, ys, xs, c, c');
    }
  }

  lemma CoverKept(xs0: seq<RefSet>, xs: seq<RefSet>, n: nat)
    requires RefsCover(xs0, n) && |xs| == |xs0| && forall c | 0 <= c < |xs| :: xs[c].refs == xs0[c].refs
    ensures RefsCover(xs, n)
  {
    forall x: nat | x < n ensures InClass(xs, x) {
      assert InClass(xs0, x);
      var c :| 0 <= c < |xs0| && x in xs0[c].refs;
      assert x in xs[c].refs;
    }
  }

  lemma TwoPassesRelated(r: seq<set<nat>>, n: nat, singles: seq<RefSet>, xs0: seq<RefSet>, others: seq<RefSet>,
                         ys0: seq<RefSet>,
                         ys: seq<RefSet>, xs: seq<RefSet>, c: nat, d: nat, x: nat, y: nat)
    requires |singles| == |r| && forall x | 0 <= x < |r| :: singles[x] == RefSet({x}, r[x])
    requires |others| == n && (forall y | 0 <= y < n :: others[y].refs == {y})
    requires IsGrouping(singles, xs0) && Synchronised(xs0, others, ys0)
    requires IsGrouping(ys0, ys) && Synchronised(ys, xs0, xs)
    requires c < |xs| && d < |ys| && x < |r| && x in xs[c].refs && y in ys[d].refs
    ensures y < n && RelatedAt(r, xs, ys, c, d, x, y) && xs0[c].values == r[x]
  {
    SinglesGrouped(singles, xs0, c, x);
    SinglesGrouped(ys0, ys, d, y);
  }

  lemma ClassValues(r: seq<set<nat>>, n: nat, singles: seq<RefSet>, xs0: seq<RefSet>)
    requires |singles| == |r| && (forall x | 0 <= x < |r| :: singles[x] == RefSet({x}, r[x]))
      && IsGrouping(singles, xs0)
    requires forall x | 0 <= x < |r| :: r[x] <= Range(n)
    ensures forall c | 0 <= c < |xs0| :: xs0[c].values <= Range(n)
  {
    ClassesInRange(singles, xs0, n);
  }

  /** Classes that differ in an element differ in its class. */
  lemma StillDistinct(r: seq<set<nat>>, n: nat, singles: seq<RefSet>, xs0: seq<RefSet>, others: seq<RefSet>,
                      ys0: seq<RefSet>,
                      ys: seq<RefSet>, xs: seq<RefSet>, c: nat, c': nat)
    requires |singles| == |r| && forall x | 0 <= x < |r| :: singles[x] == RefSet({x}, r[x])
    requires |others| == n && (forall y | 0 <= y < n :: others[y].refs == {y})
      && forall x | 0 <= x < |r| :: r[x] <= Range(n)
    requires IsGrouping(singles, xs0) && Synchronised(xs0, others, ys0)
    requires IsGrouping(ys0, ys) && Synchronised(ys, xs0, xs) && c < c' < |xs|
    ensures xs[c].values != xs[c'].values
  {
    ClassValues(r, n, singles, xs0);
    assert xs0[c].values != xs0[c'].values;
    var y :| y in xs0[c].values + xs0[c'].values && !(y in xs0[c].values && y in xs0[c'].values);
    assert y < n;
    assert HasValues(ys0, ys0[y].values, 0, |ys0|);
    assert HasValues(ys, ys0[y].values, 0, |ys|);
    var d :| 0 <= d < |ys| && ys[d].values == ys0[y].values;
    assert (c in ys[d].values) != (c' in ys[d].values);
    assert (d in xs[c].values) != (d in xs[c'].values);
  }

  /** The classes of objects and attributes, clarifying the larger side first. */
  method BuildClasses(ctx: Context, hash: set<nat> -> nat) returns (objs: seq<RefSet>, attrs: seq<RefSet>)
    requires ctx.Valid()
    ensures Classed(ctx.rows, |ctx.cols|, objs, attrs)
  {
    if |ctx.cols| > |ctx.rows| {
      var attrSets := Singles(ctx.cols);
      var none := Empties(|ctx.rows|);
      var attrs0, objs0 := Clarify(attrSets, none, hash);
      SyncWithin(attrs0, none, objs0);
      objs, attrs := Clarify(objs0, attrs0, hash);
      TwoPasses(ctx.cols, |ctx.rows|, attrSets, attrs0, none, objs0, objs, attrs);
      Transposed(ctx, objs, attrs);
    } else {
      var objSets := Singles(ctx.rows);
      var none := Empties(|ctx.cols|);
      var objs0, attrs0 := Clarify(objSets, none, hash);
      SyncWithin(objs0, none, attrs0);
      attrs, objs := Clarify(attrs0, objs0, hash);
      TwoPasses(ctx.rows, |ctx.cols|, objSets, objs0, none, attrs0, attrs, objs);
    }
  }

  method Empties(n: nat) returns (sets: seq<RefSet>)
    ensures |sets| == n && forall x | 0 <= x < n :: sets[x] == RefSet({x}, {})
  {
    sets := [];
    for x := 0 to n
      invariant |sets| == x && forall k | 0 <= k < x :: sets[k] == RefSet({k}, {})
    {
      sets := sets + [RefSet({x}, {})];
    }
  }

  lemma SyncWithin(classes: seq<RefSet>, sync: seq<RefSet>, sync': seq<RefSet>)
    requires Synchronised(classes, sync, sync')
    ensures forall k | 0 <= k < |sync'| :: sync'[k].values <= Range(|classes|)
  {}

  lemma Transposed(ctx: Context, objs: seq<RefSet>, attrs: seq<RefSet>)
    requires ctx.Valid() && Classed(ctx.cols, |ctx.rows|, attrs, objs)
    ensures Classed(ctx.rows, |ctx.cols|, objs, attrs)
  {
    forall c: nat, d: nat, o: nat, a: nat | c < |objs| && d < |attrs| && o < |ctx.rows| && o in objs[c].refs
      && a in attrs[d].refs
      ensures RelatedAt(ctx.rows, objs, attrs, c, d, o, a)
    {
      assert RelatedAt(ctx.cols, attrs, objs, d, c, a, o);
    }
  }

  // ---- what sets of attribute classes mean ----

  ghost predicate HasAttribute(attrs: seq<RefSet>, v: set<nat>, a: nat) {
    exists d :: 0 <= d < |attrs| && d in v && a in attrs[d].refs
  }

  /** The attributes in the classes of v. */
  ghost function IntentOf(ctx: Context, attrs: seq<RefSet>, v: set<nat>): set<nat> {
    set a: nat | a < |ctx.cols| && HasAttribute(attrs, v, a)
  }

  ghost function ExtentOf(ctx: Context, attrs: seq<RefSet>, v: set<nat>): set<nat> {
    ctx.Extent(IntentOf(ctx, attrs, v))
  }

  /** v stands for an intent. */
  ghost predicate IsIntent(ctx: Context, attrs: seq<RefSet>, v: set<nat>) {
    v <= Range(|attrs|) && ctx.Closure(IntentOf(ctx, attrs, v)) == IntentOf(ctx, attrs, v)
  }

  /** An attribute is in one class only. */
  lemma OneClass(ctx: Context, objs: seq<RefSet>, attrs: seq<RefSet>, c: nat, d: nat, a: nat)
    requires ctx.Valid() && Classed(ctx.rows, |ctx.cols|, objs, attrs) && c < |attrs| && d < |attrs|
    requires a in attrs[c].refs && a in attrs[d].refs
    ensures c == d
  {
    forall e | 0 <= e < |objs| ensures e in attrs[c].values <==> e in attrs[d].values {
      var o :| o in objs[e].refs;
      assert RelatedAt(ctx.rows, objs, attrs, e, c, o, a) && RelatedAt(ctx.rows, objs, attrs, e, d, o, a);
    }
    assert attrs[c].values == attrs[d].values;
  }

  /** Larger sets of classes are larger sets of attributes. */
  lemma SameInclusion(ctx: Context, objs: seq<RefSet>, attrs: seq<RefSet>, v: set<nat>, w: set<nat>)
    requires ctx.Valid() && Classed(ctx.rows, |ctx.cols|, objs, attrs) && v <= Range(|attrs|)
    ensures IntentOf(ctx, attrs, v) <= IntentOf(ctx, attrs, w) <==> v <= w
  {
    if IntentOf(ctx, attrs, v) <= IntentOf(ctx, attrs, w) {
      forall d | d in v ensures d in w {
        var a :| a in attrs[d].refs;
        assert HasAttribute(attrs, v, a) && a in IntentOf(ctx, attrs, v);
        assert HasAttribute(attrs, w, a);
        var e :| 0 <= e < |attrs| && e in w && a in attrs[e].refs;
        OneClass(ctx, objs, attrs, d, e, a);
      }
    }
    if v <= w {
      forall a | a in IntentOf(ctx, attrs, v) ensures HasAttribute(attrs, w, a) {
        var d :| 0 <= d < |attrs| && d in v && a in attrs[d].refs;
      }
    }
  }

  /** Intents are ordered as their extents, the other way round. */
  lemma ExtentOrder(ctx: Context, objs: seq<RefSet>, attrs: seq<RefSet>, v: set<nat>, w: set<nat>)
    requires ctx.Valid() && Classed(ctx.rows, |ctx.cols|, objs, attrs) && IsIntent(ctx, attrs, v)
      && IsIntent(ctx, attrs, w)
    ensures ExtentOf(ctx, attrs, w) <= ExtentOf(ctx, attrs, v) <==> v <= w
  {
    SameInclusion(ctx, objs, attrs, v, w);
    var i, j := IntentOf(ctx, attrs, v), IntentOf(ctx, attrs, w);
    if i <= j { ExtentAntitone(ctx, i, j); }
    if ctx.Extent(j) <= ctx.Extent(i) { IntentAntitone(ctx, ctx.Extent(j), ctx.Extent(i)); }
  }

  /** The values of an object class are the intent of its objects. */
  lemma ObjectIntent(ctx: Context, objs: seq<RefSet>, attrs: seq<RefSet>, c: nat, o: nat)
    requires ctx.Valid() && Classed(ctx.rows, |ctx.cols|, objs, attrs) && c < |objs| && o in objs[c].refs
    ensures o < |ctx.rows| && IntentOf(ctx, attrs, objs[c].values) == ctx.rows[o]
    ensures IsIntent(ctx, attrs, objs[c].values) && ExtentOf(ctx, attrs, objs[c].values) == ctx.Extent(ctx.rows[o])
  {
    var v := objs[c].values;
    assert objs[c].refs <= Range(|ctx.rows|);
    forall a: nat | a < |ctx.cols| ensures HasAttribute(attrs, v, a) <==> a in ctx.rows[o] {
      assert InClass(attrs, a);
      var d :| 0 <= d < |attrs| && a in attrs[d].refs;
      assert RelatedAt(ctx.rows, objs, attrs, c, d, o, a);
      if HasAttribute(attrs, v, a) {
        var e :| 0 <= e < |attrs| && e in v && a in attrs[e].refs;
        OneClass(ctx, objs, attrs, d, e, a);
      }
    }
    assert IntentOf(ctx, attrs, v) == ctx.rows[o];
    RowIsIntent(ctx, o);
  }

  lemma RowIsIntent(ctx: Context, o: nat)
    requires ctx.Valid() && o < |ctx.rows|
    ensures ctx.Closure(ctx.rows[o]) == ctx.rows[o]
  {
    ClosureExtensive(ctx, ctx.rows[o]);
    assert o in ctx.Extent(ctx.rows[o]);
    forall a | a in ctx.Closure(ctx.rows[o]) ensures a in ctx.rows[o] {
      assert o in ctx.cols[a];
    }
  }

  /** The attribute classes whose objects include those of class i. */
  ghost function Dominators(attrs: seq<RefSet>, i: nat): set<nat>
    requires i < |attrs|
  {
    set j: nat | j < |attrs| && (i == j || attrs[i].values <= attrs[j].values)
  }

  /** Class values include one another as the columns do. */
  lemma ColumnInclusion(ctx: Context, objs: seq<RefSet>, attrs: seq<RefSet>, i: nat, j: nat, a: nat, b: nat)
    requires ctx.Valid() && Classed(ctx.rows, |ctx.cols|, objs, attrs) && i < |attrs| && j < |attrs|
    requires a in attrs[i].refs && b in attrs[j].refs
    ensures a < |ctx.cols| && b < |ctx.cols|
    ensures attrs[i].values <= attrs[j].values <==> ctx.cols[a] <= ctx.cols[b]
  {
    assert attrs[i].refs <= Range(|ctx.cols|) && attrs[j].refs <= Range(|ctx.cols|);
    if attrs[i].values <= attrs[j].values {
      forall o | o in ctx.cols[a] ensures o in ctx.cols[b] {
        assert InClass(objs, o);
        var c :| 0 <= c < |objs| && o in objs[c].refs;
        assert RelatedAt(ctx.rows, objs, attrs, c, i, o, a) && RelatedAt(ctx.rows, objs, attrs, c, j, o, b);
      }
    }
    if ctx.cols[a] <= ctx.cols[b] {
      forall c | c in attrs[i].values ensures c in attrs[j].values {
        var o :| o in objs[c].refs;
        assert o < |ctx.rows|;
        assert RelatedAt(ctx.rows, objs, attrs, c, i, o, a) && RelatedAt(ctx.rows, objs, attrs, c, j, o, b);
      }
    }
  }

  /** The dominators of an attribute class are the intent of its attributes. */
  lemma AttributeIntent(ctx: Context, objs: seq<RefSet>, attrs: seq<RefSet>, i: nat, a: nat)
    requires ctx.Valid() && Classed(ctx.rows, |ctx.cols|, objs, attrs) && i < |attrs| && a in attrs[i].refs
    ensures a < |ctx.cols| && IsIntent(ctx, attrs, Dominators(attrs, i))
      && ExtentOf(ctx, attrs, Dominators(attrs, i)) == ctx.cols[a]
  {
    var v := Dominators(attrs, i);
    ColumnInclusion(ctx, objs, attrs, i, i, a, a);
    forall b: nat | b < |ctx.cols| ensures HasAttribute(attrs, v, b) <==> ctx.cols[a] <= ctx.cols[b] {
      assert InClass(attrs, b);
      var d :| 0 <= d < |attrs| && b in attrs[d].refs;
      ColumnInclusion(ctx, objs, attrs, i, d, a, b);
      if HasAttribute(attrs, v, b) {
        var e :| 0 <= e < |attrs| && e in v && b in attrs[e].refs;
        OneClass(ctx, objs, attrs, d, e, b);
      }
    }
    assert ctx.Extent({a}) == ctx.cols[a];
    assert IntentOf(ctx, attrs, v) == ctx.Closure({a});
    ClosureIdempotent(ctx, {a});
  }

  // ---- the concepts ----

  /** A concept as the attribute classes of its intent, with the objects and attributes it
      introduces. */
  datatype HConcept = HConcept(intent: set<nat>, extent: set<nat>, values: set<nat>)

  ghost predicate ObjectsOf(objs: seq<RefSet>, v: set<nat>, o: nat) {
    exists c :: 0 <= c < |objs| && objs[c].values == v && o in objs[c].refs
  }

  ghost predicate AttributesOf(attrs: seq<RefSet>, v: set<nat>, a: nat, n: nat)
    requires n <= |attrs|
  {
    exists i :: 0 <= i < n && Dominators(attrs, i) == v && a in attrs[i].refs
  }

  ghost predicate HasConcept(concepts: seq<HConcept>, v: set<nat>) {
    exists k :: 0 <= k < |concepts| && concepts[k].values == v
  }

  /** The concept introduces what the classes with its values hold, and something at least. */
  ghost predicate IsConcept(objs: seq<RefSet>, attrs: seq<RefSet>, k: HConcept, n: nat)
    requires n <= |attrs|
  {
    && (forall o: nat :: o in k.extent <==> ObjectsOf(objs, k.values, o))
    && (forall a: nat :: a in k.intent <==> AttributesOf(attrs, k.values, a, n))
    && (k.extent != {} || k.intent != {})
  }

  /** All object concepts and the attribute concepts of the first n classes, each once. */
  ghost predicate ConceptsUpTo(objs: seq<RefSet>, attrs: seq<RefSet>, concepts: seq<HConcept>, n: nat)
    requires n <= |attrs|
  {
    && (forall k, l | 0 <= k < l < |concepts| :: concepts[k].values != concepts[l].values)
    && (forall k | 0 <= k < |concepts| :: IsConcept(objs, attrs, concepts[k], n))
    && (forall c | 0 <= c < |objs| :: HasConcept(concepts, objs[c].values))
    && (forall i | 0 <= i < n :: HasConcept(concepts, Dominators(attrs, i)))
  }

  method ComputeDomRelation(attrs: seq<RefSet>) returns (dom: seq<RefSet>)
    ensures |dom| == |attrs| && forall i | 0 <= i < |attrs| :: dom[i] == RefSet(attrs[i].refs, Dominators(attrs, i))
  {
    dom := [];
    for i := 0 to |attrs|
      invariant |dom| == i && forall k | 0 <= k < i :: dom[k] == RefSet(attrs[k].refs, Dominators(attrs, k))
    {
      var values: set<nat> := {};
      for j := 0 to |attrs|
        invariant values == Derivation.Below(Dominators(attrs, i), j)
      {
        if i == j || attrs[i].values <= attrs[j].values {
          values := values + {j};
        }
      }
      assert Derivation.Below(Dominators(attrs, i), |attrs|) == Dominators(attrs, i);
      dom := dom + [RefSet(attrs[i].refs, values)];
    }
  }

  /** One concept per object class, then each attribute class joins the concept with its
      values or makes a new one. */
  method ListConcepts(objs: seq<RefSet>, attrs: seq<RefSet>) returns (concepts: seq<HConcept>)
    requires DistinctValues(objs) && (forall c | 0 <= c < |objs| :: objs[c].refs != {})
      && (forall i | 0 <= i < |attrs| :: attrs[i].refs != {})
    requires forall i, j | 0 <= i < j < |attrs| :: Dominators(attrs, i) != Dominators(attrs, j)
    ensures ConceptsUpTo(objs, attrs, concepts, |attrs|)
  {
    hide Dominators, ConceptsUpTo, IsConcept, HasConcept;
    var dom := ComputeDomRelation(attrs);
    concepts := [];
    for c := 0 to |objs|
      invariant |concepts| == c && forall k | 0 <= k < c :: concepts[k] == HConcept({}, objs[k].refs, objs[k].values)
    {
      concepts := concepts + [HConcept({}, objs[c].refs, objs[c].values)];
    }
    ObjectConcepts(objs, attrs, concepts);
    for i := 0 to |attrs|
      invariant ConceptsUpTo(objs, attrs, concepts, i)
    {
      ghost var before := concepts;
      var done := false;
      for j := 0 to |concepts|
        invariant !done && concepts == before && forall l | 0 <= l < j :: concepts[l].values != dom[i].values
      {
        if dom[i].values == concepts[j].values {
          JoinConcept(objs, attrs, concepts, i, j);
          concepts := concepts[j := concepts[j].(intent := concepts[j].intent + dom[i].refs)];
          done := true;
          break;
        }
      }
      if !done {
        NewConcept(objs, attrs, concepts, i);
        concepts := concepts + [HConcept(dom[i].refs, {}, dom[i].values)];
      }
    }
  }

  lemma ObjectConcepts(objs: seq<RefSet>, attrs: seq<RefSet>, concepts: seq<HConcept>)
    requires DistinctValues(objs) && forall c | 0 <= c < |objs| :: objs[c].refs != {}
    requires |concepts| == |objs|
      && forall k | 0 <= k < |objs| :: concepts[k] == HConcept({}, objs[k].refs, objs[k].values)
    ensures ConceptsUpTo(objs, attrs, concepts, 0)
  {
    forall k | 0 <= k < |concepts| ensures IsConcept(objs, attrs, concepts[k], 0) {
      forall o: nat ensures o in concepts[k].extent <==> ObjectsOf(objs, concepts[k].values, o) {}
    }
    forall c | 0 <= c < |objs| ensures HasConcept(concepts, objs[c].values) {
      assert concepts[c].values == objs[c].values;
    }
  }

  lemma NextAttribute(attrs: seq<RefSet>, v: set<nat>, i: nat)
    requires i < |attrs|
    ensures forall a: nat ::
      AttributesOf(attrs, v, a, i + 1) <==>
        AttributesOf(attrs, v, a, i) || (Dominators(attrs, i) == v && a in attrs[i].refs)
  {
    hide Dominators;
    forall a: nat ensures AttributesOf(attrs, v, a, i + 1)
      <==> AttributesOf(attrs, v, a, i) || (Dominators(attrs, i) == v && a in attrs[i].refs) {
      if AttributesOf(attrs, v, a, i + 1) {
        var k :| 0 <= k < i + 1 && Dominators(attrs, k) == v && a in attrs[k].refs;
        assert k < i || k == i;
      }
    }
  }

  lemma HasConceptKept(before: seq<HConcept>, after: seq<HConcept>, v: set<nat>)
    requires HasConcept(before, v) && |before| <= |after|
      && forall k | 0 <= k < |before| :: after[k].values == before[k].values
    ensures HasConcept(after, v)
  {
    var k :| 0 <= k < |before| && before[k].values == v;
    assert after[k].values == v;
  }

  lemma JoinConcept(objs: seq<RefSet>, attrs: seq<RefSet>, concepts: seq<HConcept>, i: nat, j: nat)
    requires i < |attrs| && ConceptsUpTo(objs, attrs, concepts, i) && j < |concepts|
      && concepts[j].values == Dominators(attrs, i)
    ensures ConceptsUpTo(objs, attrs, concepts[j := concepts[j].(intent := concepts[j].intent + attrs[i].refs)], i + 1)
  {
    hide Dominators;
    var after := concepts[j := concepts[j].(intent := concepts[j].intent + attrs[i].refs)];
    forall k | 0 <= k < |after| ensures IsConcept(objs, attrs, after[k], i + 1) {
      NextAttribute(attrs, concepts[k].values, i);
      assert IsConcept(objs, attrs, concepts[k], i);
    }
    hide IsConcept;
    forall c | 0 <= c < |objs| ensures HasConcept(after, objs[c].values) {
      HasConceptKept(concepts, after, objs[c].values);
    }
    forall l | 0 <= l < i + 1 ensures HasConcept(after, Dominators(attrs, l)) {
      if l == i { assert after[j].values == Dominators(attrs, i); }
        else { HasConceptKept(concepts, after, Dominators(attrs, l)); }
    }
  }

  lemma NewConcept(objs: seq<RefSet>, attrs: seq<RefSet>, concepts: seq<HConcept>, i: nat)
    requires i < |attrs| && ConceptsUpTo(objs, attrs, concepts, i) && attrs[i].refs != {}
    requires forall j | 0 <= j < |concepts| :: concepts[j].values != Dominators(attrs, i)
    ensures ConceptsUpTo(objs, attrs, concepts + [HConcept(attrs[i].refs, {}, Dominators(attrs, i))], i + 1)
  {
    hide Dominators;
    var v := Dominators(attrs, i);
    var after := concepts + [HConcept(attrs[i].refs, {}, v)];
    forall k | 0 <= k < |after| ensures IsConcept(objs, attrs, after[k], i + 1) {
      NextAttribute(attrs, after[k].values, i);
      if k < |concepts| {
        assert IsConcept(objs, attrs, concepts[k], i);
      } else {
        NothingYet(objs, attrs, concepts, v, i);
      }
    }
    hide IsConcept;
    forall c | 0 <= c < |objs| ensures HasConcept(after, objs[c].values) {
      HasConceptKept(concepts, after, objs[c].values);
    }
    forall l | 0 <= l < i + 1 ensures HasConcept(after, Dominators(attrs, l)) {
      if l == i { assert after[|concepts|].values == v; }
        else { HasConceptKept(concepts, after, Dominators(attrs, l)); }
    }
  }

  /** Values without a concept belong to no class seen so far. */
  lemma NothingYet(objs: seq<RefSet>, attrs: seq<RefSet>, concepts: seq<HConcept>, v: set<nat>, i: nat)
    requires i <= |attrs| && ConceptsUpTo(objs, attrs, concepts, i)
      && forall j | 0 <= j < |concepts| :: concepts[j].values != v
    ensures forall o: nat :: !ObjectsOf(objs, v, o)
    ensures forall a: nat :: !AttributesOf(attrs, v, a, i)
  {
    hide Dominators, IsConcept;
    forall c | 0 <= c < |objs| ensures objs[c].values != v {
      assert HasConcept(concepts, objs[c].values);
    }
    forall l | 0 <= l < i ensures Dominators(attrs, l) != v {
      assert HasConcept(concepts, Dominators(attrs, l));
    }
  }

  lemma DominatorsDistinct(attrs: seq<RefSet>, i: nat, j: nat)
    requires DistinctValues(attrs) && i < j < |attrs|
    ensures Dominators(attrs, i) != Dominators(attrs, j)
  {
    if Dominators(attrs, i) == Dominators(attrs, j) { SameDominators(attrs, i, j); }
  }

  lemma SameDominators(attrs: seq<RefSet>, i: nat, j: nat)
    requires i < |attrs| && j < |attrs| && Dominators(attrs, i) == Dominators(attrs, j)
    ensures attrs[i].values == attrs[j].values
  {
    assert i in Dominators(attrs, i) && j in Dominators(attrs, j);
  }

  // ---- the diagram ----

  /** The values of the concepts in the order of the diagram. */
  ghost function InOrder(concepts: seq<HConcept>, order: seq<nat>): (v: seq<set<nat>>)
    requires forall p | 0 <= p < |order| :: order[p] < |concepts|
    ensures |v| == |order| && forall p | 0 <= p < |v| :: v[p] == concepts[order[p]].values
  {
    seq(|order|, p requires 0 <= p < |order| => concepts[order[p]].values)
  }

  /** Larger sets of attributes first, distinct sets throughout: a linear extension. */
  lemma OrderIsExtension(objs: seq<RefSet>, attrs: seq<RefSet>, concepts: seq<HConcept>, keys: seq<nat>, maxCard: nat,
                         order: seq<nat>)
    requires ConceptsUpTo(objs, attrs, concepts, |attrs|) && |keys| == |concepts|
    requires forall i | 0 <= i < |keys| :: |concepts[i].values| <= maxCard && keys[i] == maxCard - |concepts[i].values|
    requires BucketSort.IsSortedOrder(keys, order)
    ensures LinearExtension(InOrder(concepts, order))
  {
    var v := InOrder(concepts, order);
    forall i, j | 0 <= i < j < |v| ensures v[i] != v[j] && !(v[i] < v[j]) {
      assert order[i] != order[j];
      assert keys[order[i]] <= keys[order[j]];
      if v[i] < v[j] { SubsetCard(v[i], v[j]); }
    }
  }

  /** Without an object on its side and with one on the other, one bit decides. */
  lemma OneBit(ctx: Context, objs: seq<RefSet>, attrs: seq<RefSet>, s: HConcept, t: HConcept, o: nat, a: nat)
    requires ctx.Valid() && Classed(ctx.rows, |ctx.cols|, objs, attrs)
    requires IsConcept(objs, attrs, s, |attrs|) && IsConcept(objs, attrs, t, |attrs|) && o in t.extent && a in s.intent
    ensures o < |ctx.rows| && (a in ctx.rows[o] <==> s.values <= t.values)
  {
    assert ObjectsOf(objs, t.values, o) && AttributesOf(attrs, s.values, a, |attrs|);
    var c :| 0 <= c < |objs| && objs[c].values == t.values && o in objs[c].refs;
    var i :| 0 <= i < |attrs| && Dominators(attrs, i) == s.values && a in attrs[i].refs;
    assert objs[c].refs <= Range(|ctx.rows|);
    assert RelatedAt(ctx.rows, objs, attrs, c, i, o, a);
    assert i in Dominators(attrs, i);
    if i in t.values {
      forall j | j in s.values ensures j in t.values {
        var b :| b in attrs[j].refs;
        assert RelatedAt(ctx.rows, objs, attrs, c, j, o, b);
      }
    }
  }

  /** The diagram: concepts in order, the lower covers of each found by the backward scan. */
  method ComputeHasse(ctx: Context, ghost objs: seq<RefSet>, ghost attrs: seq<RefSet>, concepts: seq<HConcept>)
      returns (order: seq<nat>, children: seq<seq<nat>>)
    requires ctx.Valid() && Classed(ctx.rows, |ctx.cols|, objs, attrs) && ConceptsUpTo(objs, attrs, concepts, |attrs|)
    ensures |order| == |concepts| && (forall p | 0 <= p < |order| :: order[p] < |concepts|)
    ensures (forall i: nat | i < |concepts| :: i in order) && LinearExtension(InOrder(concepts, order))
    ensures Found(InOrder(concepts, order), children, |order|)
  {
    hide Context.Valid, ConceptsUpTo, LinearExtension;
    var n := |concepts|;
    var maxCard: nat := 0;
    for i := 0 to n
      invariant forall k | 0 <= k < i :: |concepts[k].values| <= maxCard
    {
      if |concepts[i].values| > maxCard { maxCard := |concepts[i].values|; }
    }
    var keys: seq<nat> := seq(n, i requires 0 <= i < n
      && |concepts[i].values| <= maxCard => (maxCard - |concepts[i].values|) as nat);
    order := BucketSort.Sort(keys, maxCard);
    OrderIsExtension(objs, attrs, concepts, keys, maxCard, order);
    ghost var v := InOrder(concepts, order);
    children := [];
    var visited := new bool[n](p => false);
    assert Marks(visited[..]) == {};
    hide Found, Classed;
    NothingFound(v);
    for pos := 0 to n
      invariant Marks(visited[..]) == {} && Found(v, children, pos)
    {
      var test := BelowTest(ctx, objs, attrs, concepts, order, pos);
      var mine := ScanBack(v, children, pos, visited, test);
      MoreFound(v, children, pos, mine);
      children := children + [mine];
    }
  }

  lemma NothingFound(v: seq<set<nat>>)
    ensures Found(v, [], 0)
  {}

  lemma MoreFound(v: seq<set<nat>>, children: seq<seq<nat>>, pos: nat, mine: seq<nat>)
    requires pos < |v| && Found(v, children, pos) && NoRepeats(mine) && ToSet(mine) == CoverGraph(v)[pos]
    ensures Found(v, children + [mine], pos + 1)
  {
    hide CoverGraph;
  }

  /** The test of the inner loop: one bit where the labels allow it, else inclusion. */
  method BelowTest(ctx: Context, ghost objs: seq<RefSet>, ghost attrs: seq<RefSet>, concepts: seq<HConcept>,
                   order: seq<nat>, pos: nat)
      returns (test: nat -> bool)
    requires ctx.Valid() && Classed(ctx.rows, |ctx.cols|, objs, attrs) && ConceptsUpTo(objs, attrs, concepts, |attrs|)
    requires pos < |order| && forall p | 0 <= p < |order| :: order[p] < |concepts|
    ensures forall t | 0 <= t < pos :: test(t) <==> concepts[order[pos]].values <= concepts[order[t]].values
  {
    var s := concepts[order[pos]];
    var mins := MinObjects(ctx, objs, attrs, concepts, order);
    assert IsConcept(objs, attrs, s, |attrs|);
    if s.extent != {} {
      test := (t: nat) => t < |order| && order[t] < |concepts| && s.values <= concepts[order[t]].values;
    } else {
      AttributesInRange(ctx, objs, attrs, s);
      var attr := Derivation.FirstIn(s.intent, |ctx.cols|);
      test := (t: nat) => t < |order| && order[t] < |concepts| && t < |mins| &&
        (if 0 <= mins[t] < |ctx.rows| then attr in ctx.rows[mins[t]] else s.values <= concepts[order[t]].values);
      forall t | 0 <= t < pos ensures test(t) <==> s.values <= concepts[order[t]].values {
        if mins[t] >= 0 {
          assert IsConcept(objs, attrs, concepts[order[t]], |attrs|);
          OneBit(ctx, objs, attrs, s, concepts[order[t]], mins[t], attr);
        }
      }
    }
  }

  /** The first object of each concept in order, or -1. */
  method MinObjects(ctx: Context, ghost objs: seq<RefSet>, ghost attrs: seq<RefSet>, concepts: seq<HConcept>,
                    order: seq<nat>)
      returns (mins: seq<int>)
    requires ctx.Valid() && Classed(ctx.rows, |ctx.cols|, objs, attrs) && ConceptsUpTo(objs, attrs, concepts, |attrs|)
    requires forall p | 0 <= p < |order| :: order[p] < |concepts|
    ensures |mins| == |order| && forall p | 0 <= p < |mins| ::
      if concepts[order[p]].extent == {} then mins[p] == -1
      else 0 <= mins[p] < |ctx.rows| && mins[p] as nat in concepts[order[p]].extent
  {
    hide Classed, IsConcept;
    mins := [];
    for p := 0 to |order|
      invariant |mins| == p && forall q | 0 <= q < p ::
        if concepts[order[q]].extent == {} then mins[q] == -1
        else 0 <= mins[q] < |ctx.rows| && mins[q] as nat in concepts[order[q]].extent
    {
      var t := concepts[order[p]];
      if t.extent == {} {
        mins := mins + [-1];
      } else {
        ObjectsInRange(ctx, objs, attrs, t);
        var o := Derivation.FirstIn(t.extent, |ctx.rows|);
        mins := mins + [o];
      }
    }
  }

  lemma ObjectsInRange(ctx: Context, objs: seq<RefSet>, attrs: seq<RefSet>, k: HConcept)
    requires Classed(ctx.rows, |ctx.cols|, objs, attrs) && IsConcept(objs, attrs, k, |attrs|)
    ensures forall o | o in k.extent :: o < |ctx.rows|
  {
    forall o | o in k.extent ensures o < |ctx.rows| {
      var c :| 0 <= c < |objs| && objs[c].values == k.values && o in objs[c].refs;
      assert objs[c].refs <= Range(|ctx.rows|);
    }
  }

  lemma AttributesInRange(ctx: Context, objs: seq<RefSet>, attrs: seq<RefSet>, k: HConcept)
    requires Classed(ctx.rows, |ctx.cols|, objs, attrs) && IsConcept(objs, attrs, k, |attrs|)
    ensures forall a | a in k.intent :: a < |ctx.cols|
  {
    hide Dominators;
    forall a | a in k.intent ensures a < |ctx.cols| {
      assert AttributesOf(attrs, k.values, a, |attrs|);
      var i :| 0 <= i < |attrs| && Dominators(attrs, i) == k.values && a in attrs[i].refs;
      assert attrs[i].refs <= Range(|ctx.cols|);
    }
  }

  // ---- the result is the AOC-poset ----

  /** A concept of the list has the extent and the labels its values call for. */
  lemma ConceptMeans(ctx: Context, objs: seq<RefSet>, attrs: seq<RefSet>, k: HConcept)
    requires ctx.Valid() && Classed(ctx.rows, |ctx.cols|, objs, attrs) && IsConcept(objs, attrs, k, |attrs|)
    ensures IsIntent(ctx, attrs, k.values) && Introduces(ctx, ExtentOf(ctx, attrs, k.values))
    ensures IsLabelled(ctx, ExtentOf(ctx, attrs, k.values), k.extent, k.intent)
  {
    hide Classed, Dominators, IsIntent, ExtentOf;
    ConceptIsIntent(ctx, objs, attrs, k);
    var x := ExtentOf(ctx, attrs, k.values);
    forall o: nat ensures o in k.extent <==> o < |ctx.rows| && ctx.Extent(ctx.rows[o]) == x {
      ObjectLabel(ctx, objs, attrs, k, o);
    }
    forall a: nat ensures a in k.intent <==> a < |ctx.cols| && ctx.cols[a] == x {
      AttributeLabel(ctx, objs, attrs, k, a);
    }
    if k.extent != {} {
      var o :| o in k.extent;
    } else {
      var a :| a in k.intent;
    }
  }

  lemma ConceptIsIntent(ctx: Context, objs: seq<RefSet>, attrs: seq<RefSet>, k: HConcept)
    requires ctx.Valid() && Classed(ctx.rows, |ctx.cols|, objs, attrs) && IsConcept(objs, attrs, k, |attrs|)
    ensures IsIntent(ctx, attrs, k.values)
  {
    hide Dominators;
    if k.extent != {} {
      var o :| o in k.extent;
      var c :| 0 <= c < |objs| && objs[c].values == k.values && o in objs[c].refs;
      ObjectIntent(ctx, objs, attrs, c, o);
    } else {
      var a :| a in k.intent;
      assert AttributesOf(attrs, k.values, a, |attrs|);
      var i :| 0 <= i < |attrs| && Dominators(attrs, i) == k.values && a in attrs[i].refs;
      AttributeIntent(ctx, objs, attrs, i, a);
    }
  }

  lemma ObjectLabel(ctx: Context, objs: seq<RefSet>, attrs: seq<RefSet>, k: HConcept, o: nat)
    requires ctx.Valid() && Classed(ctx.rows, |ctx.cols|, objs, attrs) && IsConcept(objs, attrs, k, |attrs|)
      && IsIntent(ctx, attrs, k.values)
    ensures o in k.extent <==> o < |ctx.rows| && ctx.Extent(ctx.rows[o]) == ExtentOf(ctx, attrs, k.values)
  {
    hide Dominators, IsIntent, ExtentOf;
    if o in k.extent {
      var c :| 0 <= c < |objs| && objs[c].values == k.values && o in objs[c].refs;
      ObjectIntent(ctx, objs, attrs, c, o);
    }
    if o < |ctx.rows| && ctx.Extent(ctx.rows[o]) == ExtentOf(ctx, attrs, k.values) {
      assert InClass(objs, o);
      var c :| 0 <= c < |objs| && o in objs[c].refs;
      ObjectIntent(ctx, objs, attrs, c, o);
      ExtentOrder(ctx, objs, attrs, k.values, objs[c].values);
      ExtentOrder(ctx, objs, attrs, objs[c].values, k.values);
      assert objs[c].values == k.values;
    }
  }

  lemma AttributeLabel(ctx: Context, objs: seq<RefSet>, attrs: seq<RefSet>, k: HConcept, a: nat)
    requires ctx.Valid() && Classed(ctx.rows, |ctx.cols|, objs, attrs) && IsConcept(objs, attrs, k, |attrs|)
      && IsIntent(ctx, attrs, k.values)
    ensures a in k.intent <==> a < |ctx.cols| && ctx.cols[a] == ExtentOf(ctx, attrs, k.values)
  {
    hide Dominators, IsIntent, ExtentOf;
    if a in k.intent {
      assert AttributesOf(attrs, k.values, a, |attrs|);
      var i :| 0 <= i < |attrs| && Dominators(attrs, i) == k.values && a in attrs[i].refs;
      AttributeIntent(ctx, objs, attrs, i, a);
    }
    if a < |ctx.cols| && ctx.cols[a] == ExtentOf(ctx, attrs, k.values) {
      assert InClass(attrs, a);
      var i :| 0 <= i < |attrs| && a in attrs[i].refs;
      AttributeIntent(ctx, objs, attrs, i, a);
      ExtentOrder(ctx, objs, attrs, k.values, Dominators(attrs, i));
      ExtentOrder(ctx, objs, attrs, Dominators(attrs, i), k.values);
      assert Dominators(attrs, i) == k.values;
      assert AttributesOf(attrs, k.values, a, |attrs|);
    }
  }

  ghost function AsSets(lists: seq<seq<nat>>): (r: seq<set<nat>>)
    ensures |r| == |lists| && forall i | 0 <= i < |r| :: r[i] == ToSet(lists[i])
  {
    seq(|lists|, i requires 0 <= i < |lists| => ToSet(lists[i]))
  }

  /** The extents in the order of the diagram. */
  ghost function Extents(ctx: Context, attrs: seq<RefSet>, v: seq<set<nat>>): (r: seq<set<nat>>)
    ensures |r| == |v| && forall p | 0 <= p < |r| :: r[p] == ExtentOf(ctx, attrs, v[p])
  {
    seq(|v|, p requires 0 <= p < |v| => ExtentOf(ctx, attrs, v[p]))
  }

  lemma DiagramOfExtents(ctx: Context, objs: seq<RefSet>, attrs: seq<RefSet>, v: seq<set<nat>>, children: seq<seq<nat>>)
    requires ctx.Valid() && Classed(ctx.rows, |ctx.cols|, objs, attrs) && LinearExtension(v) && Found(v, children, |v|)
    requires forall p | 0 <= p < |v| :: IsIntent(ctx, attrs, v[p])
    ensures Distinct(Extents(ctx, attrs, v)) && Diagram.Covers(Extents(ctx, attrs, v), AsSets(children))
  {
    var ext := Extents(ctx, attrs, v);
    forall p, q | 0 <= p < |v| && 0 <= q < |v| ensures ext[q] <= ext[p] <==> v[p] <= v[q] {
      ExtentOrder(ctx, objs, attrs, v[p], v[q]);
    }
    hide Classed, IsIntent;
    CoversOfSets(v, ext, children);
  }

  /** Covers of the sets are covers of the extents. */
  lemma CoversOfSets(v: seq<set<nat>>, ext: seq<set<nat>>, children: seq<seq<nat>>)
    requires LinearExtension(v) && Found(v, children, |v|) && |ext| == |v|
    requires forall p, q | 0 <= p < |v| && 0 <= q < |v| :: ext[q] <= ext[p] <==> v[p] <= v[q]
    ensures Distinct(ext) && Diagram.Covers(ext, AsSets(children))
  {
    forall p, q | 0 <= p < |v| && 0 <= q < |v| ensures ext[q] < ext[p] <==> v[p] < v[q] {}
    forall p, q | 0 <= p < q < |v| ensures ext[p] != ext[q] {
      assert v[p] != v[q];
      assert !(v[p] <= v[q]);
    }
    BelowIsOrder(v);
    forall c: nat, p: nat | c < |ext| && p < |ext| ensures c in AsSets(children)[p] <==> Diagram.CoveredBy(ext, c, p) {
      CoverOfSets(v, ext, children, c, p);
    }
  }

  lemma CoverOfSets(v: seq<set<nat>>, ext: seq<set<nat>>, children: seq<seq<nat>>, c: nat, p: nat)
    requires Found(v, children, |v|) && |ext| == |v| && c < |v| && p < |v|
    requires forall p, q | 0 <= p < |v| && 0 <= q < |v| :: ext[q] < ext[p] <==> v[p] < v[q]
    ensures c in children[p] <==> Diagram.CoveredBy(ext, c, p)
  {
    BelowIsOrder(v);
    assert c in children[p] <==> c in ToSet(children[p]);
    assert c in Covers(Below(v), p) <==> v[p] < v[c] && !Between(Below(v), p, c);
    if Between(Below(v), p, c) {
      var w :| w in Below(v)[p] && c in Below(v)[w];
      assert ext[c] < ext[w] && ext[w] < ext[p];
    }
    if k: nat :| k < |ext| && ext[c] < ext[k] < ext[p] {
      assert k in Below(v)[p] && c in Below(v)[k];
    }
  }

  /** Every introducing extent is in the list. */
  lemma IntroducersListed(ctx: Context, objs: seq<RefSet>, attrs: seq<RefSet>, concepts: seq<HConcept>,
                          order: seq<nat>, x: set<nat>)
    requires ctx.Valid() && Classed(ctx.rows, |ctx.cols|, objs, attrs) && ConceptsUpTo(objs, attrs, concepts, |attrs|)
    requires (forall p | 0 <= p < |order| :: order[p] < |concepts|) && forall i: nat | i < |concepts| :: i in order
    requires Introduces(ctx, x)
    ensures x in Extents(ctx, attrs, InOrder(concepts, order))
  {
    hide Dominators, ExtentOf, IsConcept, IsIntent;
    var v: set<nat>;
    if o: nat :| o < |ctx.rows| && x == ctx.Extent(ctx.rows[o]) {
      assert InClass(objs, o);
      var c :| 0 <= c < |objs| && o in objs[c].refs;
      ObjectIntent(ctx, objs, attrs, c, o);
      v := objs[c].values;
    } else {
      var a: nat :| a < |ctx.cols| && x == ctx.cols[a];
      assert InClass(attrs, a);
      var i :| 0 <= i < |attrs| && a in attrs[i].refs;
      AttributeIntent(ctx, objs, attrs, i, a);
      v := Dominators(attrs, i);
    }
    assert HasConcept(concepts, v);
    var k: nat :| k < |concepts| && concepts[k].values == v;
    assert k in order;
    var p :| 0 <= p < |order| && order[p] == k;
    assert Extents(ctx, attrs, InOrder(concepts, order))[p] == x;
  }

  /** The AOC-poset: concepts in a linear extension, their labels and covers. */
  method BuildHermes(ctx: Context, hash: set<nat> -> nat)
      returns (ghost ext: seq<set<nat>>, rext: seq<set<nat>>, rint: seq<set<nat>>, children: seq<seq<nat>>)
    requires ctx.Valid()
    ensures |children| == |ext| && IsAocPoset(ctx, ext, AsSets(children), rext, rint)
    ensures LabelledOnce(ctx, rext, rint) && forall p | 0 <= p < |children| :: NoRepeats(children[p])
  {
    hide LabelledOnce;
    var objs, attrs := BuildClasses(ctx, hash);
    forall i, j | 0 <= i < j < |attrs| ensures Dominators(attrs, i) != Dominators(attrs, j) {
      DominatorsDistinct(attrs, i, j);
    }
    var concepts := ListConcepts(objs, attrs);
    var order;
    order, children := ComputeHasse(ctx, objs, attrs, concepts);
    rext := seq(|order|, p requires 0 <= p < |order| && order[p] < |concepts| => concepts[order[p]].extent);
    rint := seq(|order|, p requires 0 <= p < |order| && order[p] < |concepts| => concepts[order[p]].intent);
    ext := Extents(ctx, attrs, InOrder(concepts, order));
    ResultIsPoset(ctx, objs, attrs, concepts, order, children, rext, rint);
    PosetIsLabelledOnce(ctx, ext, AsSets(children), rext, rint);
  }

  lemma ResultIsPoset(ctx: Context, objs: seq<RefSet>, attrs: seq<RefSet>, concepts: seq<HConcept>, order: seq<nat>,
                      children: seq<seq<nat>>, rext: seq<set<nat>>, rint: seq<set<nat>>)
    requires ctx.Valid() && Classed(ctx.rows, |ctx.cols|, objs, attrs) && ConceptsUpTo(objs, attrs, concepts, |attrs|)
    requires (forall p | 0 <= p < |order| :: order[p] < |concepts|) && forall i: nat | i < |concepts| :: i in order
    requires LinearExtension(InOrder(concepts, order)) && Found(InOrder(concepts, order), children, |order|)
    requires |rext| == |rint| == |order|
    requires forall p | 0 <= p < |order| :: rext[p] == concepts[order[p]].extent && rint[p] == concepts[order[p]].intent
    ensures |children| == |order|
      && IsAocPoset(ctx, Extents(ctx, attrs, InOrder(concepts, order)), AsSets(children), rext, rint)
  {
    var v := InOrder(concepts, order);
    var ext := Extents(ctx, attrs, v);
    forall p | 0 <= p < |order|
      ensures IsIntent(ctx, attrs, v[p]) && Introduces(ctx, ext[p]) && IsLabelled(ctx, ext[p], rext[p], rint[p])
    {
      assert IsConcept(objs, attrs, concepts[order[p]], |attrs|);
      ConceptMeans(ctx, objs, attrs, concepts[order[p]]);
    }
    hide IsIntent, Introduces, IsLabelled, LinearExtension;
    DiagramOfExtents(ctx, objs, attrs, v, children);
    hide Diagram.Covers;
    forall x ensures x in ext <==> Introduces(ctx, x) {
      if Introduces(ctx, x) { IntroducersListed(ctx, objs, attrs, concepts, order, x); }
    }
  }
}
