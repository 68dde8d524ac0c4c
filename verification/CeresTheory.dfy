/** Ceres takes the columns from the largest to the smallest, and after each one the objects
    all of whose attributes have been covered by then.  New concepts never contain old ones. */
module CeresTheory {
  import opened FiniteSets
  import opened FormalContext

  ghost predicate AttrConcept(ctx: Context, covered: set<nat>, x: set<nat>) {
    exists a :: a in covered && a < |ctx.cols| && x == ctx.cols[a]
  }

  ghost predicate ObjConcept(ctx: Context, objs: set<nat>, x: set<nat>) {
    exists o :: o in objs && o < |ctx.rows| && x == ctx.Extent(ctx.rows[o])
  }

  /** The concepts are the top and those of the given attributes and objects. */
  ghost predicate Family(ctx: Context, ext: seq<set<nat>>, covered: set<nat>, objs: set<nat>) {
    && |ext| > 0 && ext[0] == ctx.Objects() && Distinct(ext)
    && (forall c | 0 < c < |ext| :: AttrConcept(ctx, covered, ext[c]) || ObjConcept(ctx, objs, ext[c]))
    && (forall a | a in covered && a < |ctx.cols| :: ctx.cols[a] in ext)
    && forall o | o in objs && o < |ctx.rows| :: ctx.Extent(ctx.rows[o]) in ext
  }

  ghost function AttrsIn(ctx: Context, covered: set<nat>, x: set<nat>): set<nat> {
    set a | a in covered && a < |ctx.cols| && ctx.cols[a] == x
  }

  ghost function ObjsWith(ctx: Context, x: set<nat>): set<nat> {
    set o: nat | o < |ctx.rows| && ctx.Extent(ctx.rows[o]) == x
  }

  /** What the top introduces so far. */
  ghost function TopObjs(ctx: Context, covered: set<nat>): set<nat> {
    set o: nat | o < |ctx.rows| && ctx.rows[o] == AttrsIn(ctx, covered, ctx.Objects())
  }

  ghost predicate LabelsOk(ctx: Context, ext: seq<set<nat>>, rext: seq<set<nat>>, rint: seq<set<nat>>,
                           covered: set<nat>) {
    && |rext| == |rint| == |ext|
    && (forall c | 0 <= c < |ext| :: rint[c] == AttrsIn(ctx, covered, ext[c]))
    && (forall c | 0 < c < |ext| :: rext[c] == ObjsWith(ctx, ext[c]))
    && (|ext| > 0 ==> rext[0] == TopObjs(ctx, covered))
  }

  /** The objects all of whose attributes are covered. */
  ghost function Ready(ctx: Context, covered: set<nat>): set<nat> {
    set o: nat | o < |ctx.rows| && ctx.rows[o] <= covered
  }

  /** e is the next column: what is covered is at least as large, what is not at most. */
  ghost predicate Frontier(ctx: Context, covered: set<nat>, e: set<nat>) {
    && covered <= ctx.Attributes() && (exists a :: 0 <= a < |ctx.cols| && ctx.cols[a] == e)
    && (forall a | a in covered && a < |ctx.cols| :: |e| <= |ctx.cols[a]| && ctx.cols[a] != e)
    && forall a: nat | a < |ctx.cols| && a !in covered :: |ctx.cols[a]| <= |e|
  }

  // ---- rows and columns ----

  lemma RowClosed(ctx: Context, o: nat, p: nat)
    requires ctx.Valid() && o < |ctx.rows| && p < |ctx.rows|
    ensures o in ctx.Extent(ctx.rows[o]) && ctx.Extent(ctx.rows[o]) <= ctx.Objects()
    ensures ctx.Extent(ctx.rows[p]) <= ctx.Extent(ctx.rows[o]) <==> ctx.rows[o] <= ctx.rows[p]
    ensures ctx.Extent(ctx.rows[p]) == ctx.Extent(ctx.rows[o]) <==> ctx.rows[o] == ctx.rows[p]
  {
    assert o in ctx.Extent(ctx.rows[o]) && p in ctx.Extent(ctx.rows[p]);
  }

  lemma InColumn(ctx: Context, a: nat, o: nat)
    requires ctx.Valid() && a < |ctx.cols| && o < |ctx.rows|
    ensures o in ctx.cols[a] <==> ctx.Extent(ctx.rows[o]) <= ctx.cols[a]
  {
    if o in ctx.cols[a] {
      forall p | p in ctx.Extent(ctx.rows[o]) ensures p in ctx.cols[a] {
        assert a in ctx.rows[o];
      }
    } else {
      assert o in ctx.Extent(ctx.rows[o]);
    }
  }

  /** The intent of a column holds covered attributes only, once the column is covered. */
  lemma IntentOfColumn(ctx: Context, covered: set<nat>, e: set<nat>)
    requires ctx.Valid() && Frontier(ctx, covered, e)
    ensures forall a | a in ctx.Intent(e) :: a in covered || ctx.cols[a] == e
  {
    forall a | a in ctx.Intent(e) ensures a in covered || ctx.cols[a] == e {
      SubsetCard(e, ctx.cols[a]);
    }
  }

  /** An object of the column has the column's own concept when its row is the intent of the
      column. */
  lemma OwnObjects(ctx: Context, e: set<nat>, a: nat, o: nat)
    requires ctx.Valid() && a < |ctx.cols| && ctx.cols[a] == e && o < |ctx.rows|
    ensures o in e && ctx.rows[o] == ctx.Intent(e) <==> ctx.Extent(ctx.rows[o]) == e
  {
    RowClosed(ctx, o, o);
    InColumn(ctx, a, o);
    if ctx.Extent(ctx.rows[o]) == e {
      forall b | b in ctx.Intent(e) ensures b in ctx.rows[o] {
        assert o in ctx.cols[b];
      }
      forall b | b in ctx.rows[o] ensures b in ctx.Intent(e) {
        InColumn(ctx, b, o);
      }
    }
    if o in e && ctx.rows[o] == ctx.Intent(e) {
      forall p | p in e ensures p in ctx.Extent(ctx.rows[o]) {
        forall b | b in ctx.rows[o] ensures b in ctx.rows[p] {
          assert b in ctx.Intent(e);
        }
      }
    }
  }

  // ---- a new attribute concept ----

  /** No concept lies inside the next column: an object there would have an attribute that is
      not covered. */
  lemma NothingInsideColumn(ctx: Context, ext: seq<set<nat>>, covered: set<nat>, objs: set<nat>, e: set<nat>, c: nat)
    requires ctx.Valid() && Family(ctx, ext, covered, objs) && objs <= Ready(ctx, covered) && Frontier(ctx, covered, e)
    requires e != ctx.Objects() && c < |ext|
    ensures !(ext[c] <= e) && e <= ctx.Objects()
  {
    var g :| 0 <= g < |ctx.cols| && ctx.cols[g] == e;
    assert g !in covered;
    if c > 0 && AttrConcept(ctx, covered, ext[c]) {
      var a :| a in covered && a < |ctx.cols| && ext[c] == ctx.cols[a];
      if ext[c] <= e { SubsetCard(ext[c], e); }
    } else if c > 0 {
      var o :| o in objs && o < |ctx.rows| && ext[c] == ctx.Extent(ctx.rows[o]);
      assert g !in ctx.rows[o];
      InColumn(ctx, g, o);
    }
  }

  lemma InMore(ext: seq<set<nat>>, e: set<nat>, x: set<nat>)
    ensures x in ext + [e] <==> x in ext || x == e
  {}

  /** The concept of the column, with the objects whose concept it is. */
  lemma ColumnAdded(ctx: Context, ext: seq<set<nat>>, covered: set<nat>, objs: set<nat>, e: set<nat>, group: set<nat>)
    requires ctx.Valid() && Family(ctx, ext, covered, objs) && objs <= Ready(ctx, covered)
      && Frontier(ctx, covered, e) && e != ctx.Objects()
    requires group == AttrsIn(ctx, ctx.Attributes(), e)
    ensures Family(ctx, ext + [e], covered + group, objs + ObjsWith(ctx, e))
  {
    hide ObjConcept, Context.Valid;
    var ext', covered', objs' := ext + [e], covered + group, objs + ObjsWith(ctx, e);
    var g :| 0 <= g < |ctx.cols| && ctx.cols[g] == e;
    assert g in group;
    forall c | 0 <= c < |ext| ensures ext[c] != e {
      NothingInsideColumn(ctx, ext, covered, objs, e, c);
    }
    forall c | 0 < c < |ext'| ensures AttrConcept(ctx, covered', ext'[c]) || ObjConcept(ctx, objs', ext'[c]) {
      if c < |ext| {
        StillConcept(ctx, covered, objs, covered', objs', ext[c]);
      } else {
        assert ctx.cols[g] == ext'[c];
      }
    }
    forall o | o in objs' && o < |ctx.rows| ensures ctx.Extent(ctx.rows[o]) in ext' {
      InMore(ext, e, ctx.Extent(ctx.rows[o]));
    }
    forall a | a in covered' && a < |ctx.cols| ensures ctx.cols[a] in ext' {
      InMore(ext, e, ctx.cols[a]);
    }
  }

  lemma StillConcept(ctx: Context, covered: set<nat>, objs: set<nat>, covered': set<nat>, objs': set<nat>, x: set<nat>)
    requires covered <= covered' && objs <= objs'
    ensures AttrConcept(ctx, covered, x) ==> AttrConcept(ctx, covered', x)
    ensures ObjConcept(ctx, objs, x) ==> ObjConcept(ctx, objs', x)
  {}

  lemma ColumnLabels(ctx: Context, ext: seq<set<nat>>, rext: seq<set<nat>>, rint: seq<set<nat>>, covered: set<nat>,
                     objs: set<nat>, e: set<nat>, group: set<nat>)
    requires ctx.Valid() && Family(ctx, ext, covered, objs) && objs <= Ready(ctx, covered)
      && Frontier(ctx, covered, e) && e != ctx.Objects()
    requires LabelsOk(ctx, ext, rext, rint, covered) && group == AttrsIn(ctx, ctx.Attributes(), e)
    ensures LabelsOk(ctx, ext + [e], rext + [ObjsWith(ctx, e)], rint + [group], covered + group)
  {
    forall c | 0 <= c < |ext| ensures ext[c] != e
      && AttrsIn(ctx, covered + group, ext[c]) == AttrsIn(ctx, covered, ext[c]) {
      NothingInsideColumn(ctx, ext, covered, objs, e, c);
    }
    hide ObjsWith, Family, Frontier;
    assert AttrsIn(ctx, covered + group, e) == group;
  }

  // ---- a column that holds all objects ----

  lemma TopColumn(ctx: Context, ext: seq<set<nat>>, rext: seq<set<nat>>, rint: seq<set<nat>>, covered: set<nat>,
                  objs: set<nat>, group: set<nat>)
    requires ctx.Valid() && |ctx.rows| > 0 && Family(ctx, ext, covered, objs) && Frontier(ctx, covered, ctx.Objects())
    requires LabelsOk(ctx, ext, rext, rint, covered) && group == AttrsIn(ctx, ctx.Attributes(), ctx.Objects())
    ensures covered == {} && rint[0] + group == group
    ensures rext[0] + (set o: nat | o < |ctx.rows|
      && ctx.rows[o] == group) == TopObjs(ctx, group) == ObjsWith(ctx, ctx.Objects())
    ensures Family(ctx, ext, covered + group, objs + ObjsWith(ctx, ctx.Objects()))
    ensures LabelsOk(ctx, ext, rext[0 := TopObjs(ctx, group)], rint[0 := group], covered + group)
  {
    hide Context.Extent, AttrConcept;
    OnlyFullColumns(ctx, covered);
    var g :| 0 <= g < |ctx.cols| && ctx.cols[g] == ctx.Objects();
    assert g in group && ctx.Intent(ctx.Objects()) == group;
    assert covered + group == group && AttrsIn(ctx, group, ctx.Objects()) == group;
    forall o: nat | o < |ctx.rows|
      ensures ctx.rows[o] != {} && (ctx.rows[o] == group <==> ctx.Extent(ctx.rows[o]) == ctx.Objects()) {
      assert o in ctx.cols[g] && g in ctx.rows[o];
      OwnObjects(ctx, ctx.Objects(), g, o);
    }
    forall c | 0 < c < |ext| ensures AttrsIn(ctx, group, ext[c]) == AttrsIn(ctx, {}, ext[c]) {
      assert ext[c] != ext[0];
    }
    hide ObjConcept;
    forall c | 0 < c < |ext| ensures AttrConcept(ctx, group, ext[c])
      || ObjConcept(ctx, objs + ObjsWith(ctx, ctx.Objects()), ext[c]) {
      StillConcept(ctx, covered, objs, group, objs + ObjsWith(ctx, ctx.Objects()), ext[c]);
    }
  }

  lemma OnlyFullColumns(ctx: Context, covered: set<nat>)
    requires ctx.Valid() && Frontier(ctx, covered, ctx.Objects())
    ensures covered == {}
  {
    forall a ensures a !in covered {
      if a in covered {
        assert ctx.cols[a] <= ctx.Objects();
        SubsetCard(ctx.cols[a], ctx.Objects());
      }
    }
  }

  // ---- a new object concept ----

  /** What came before object o of column e: the column's own objects, those outside, and
      those with other rows that are not larger. */
  ghost predicate Earlier(ctx: Context, e: set<nat>, objs: set<nat>, o: nat)
    requires o < |ctx.rows|
  {
    forall p | p in objs && p < |ctx.rows| ::
      p !in e || ctx.Extent(ctx.rows[p]) == e || (|ctx.rows[p]| <= |ctx.rows[o]| && ctx.rows[p] != ctx.rows[o])
  }

  ghost predicate ColumnDone(ctx: Context, covered: set<nat>, e: set<nat>) {
    && e != ctx.Objects() && (exists a :: 0 <= a < |ctx.cols| && ctx.cols[a] == e)
    && forall a | a in covered && a < |ctx.cols| :: |e| <= |ctx.cols[a]|
  }

  lemma NothingInsideObject(ctx: Context, ext: seq<set<nat>>, covered: set<nat>, objs: set<nat>, e: set<nat>, o: nat,
                            c: nat)
    requires ctx.Valid() && Family(ctx, ext, covered, objs) && ColumnDone(ctx, covered, e) && o < |ctx.rows|
      && c < |ext|
    requires o in e && ctx.Extent(ctx.rows[o]) != e && Earlier(ctx, e, objs, o)
    ensures !(ext[c] <= ctx.Extent(ctx.rows[o])) && ctx.Extent(ctx.rows[o]) <= ctx.Objects()
  {
    var x := ctx.Extent(ctx.rows[o]);
    var g :| 0 <= g < |ctx.cols| && ctx.cols[g] == e;
    InColumn(ctx, g, o);
    RowClosed(ctx, o, o);
    if c > 0 && AttrConcept(ctx, covered, ext[c]) {
      var a :| a in covered && a < |ctx.cols| && ext[c] == ctx.cols[a];
      SubsetCard(x, e);
      if ext[c] <= x { SubsetCard(ext[c], x); }
    } else if c > 0 {
      var p :| p in objs && p < |ctx.rows| && ext[c] == ctx.Extent(ctx.rows[p]);
      RowClosed(ctx, o, p);
      RowClosed(ctx, p, p);
      if ctx.rows[o] <= ctx.rows[p] { SubsetCard(ctx.rows[o], ctx.rows[p]); }
    }
  }

  lemma ObjectAdded(ctx: Context, ext: seq<set<nat>>, rext: seq<set<nat>>, rint: seq<set<nat>>, covered: set<nat>,
                    objs: set<nat>, e: set<nat>, o: nat)
    requires ctx.Valid() && Family(ctx, ext, covered, objs) && LabelsOk(ctx, ext, rext, rint, covered)
      && ColumnDone(ctx, covered, e) && o < |ctx.rows|
    requires o in e && ctx.Extent(ctx.rows[o]) != e && Earlier(ctx, e, objs, o)
    ensures var x := ctx.Extent(ctx.rows[o]);
      Family(ctx, ext + [x], covered, objs + ObjsWith(ctx, x))
        && LabelsOk(ctx, ext + [x], rext + [ObjsWith(ctx, x)], rint + [{}], covered)
  {
    hide Context.Valid, ColumnDone, Context.Extent, Earlier, AttrConcept;
    var x := ctx.Extent(ctx.rows[o]);
    var ext', objs' := ext + [x], objs + ObjsWith(ctx, x);
    forall c | 0 <= c < |ext| ensures ext[c] != x {
      NothingInsideObject(ctx, ext, covered, objs, e, o, c);
    }
    assert x !in ext && AttrsIn(ctx, covered, x) == {};
    assert o in ObjsWith(ctx, x);
    assert ObjConcept(ctx, objs', x);
    hide ObjConcept;
    forall c | 0 < c < |ext'| ensures AttrConcept(ctx, covered, ext'[c]) || ObjConcept(ctx, objs', ext'[c]) {
      StillConcept(ctx, covered, objs, covered, objs', if c < |ext| then ext[c] else x);
    }
    forall p | p in objs' && p < |ctx.rows| ensures ctx.Extent(ctx.rows[p]) in ext' {
      InMore(ext, x, ctx.Extent(ctx.rows[p]));
    }
    forall a | a in covered && a < |ctx.cols| ensures ctx.cols[a] in ext' {
      InMore(ext, x, ctx.cols[a]);
    }
  }

  // ---- how many concepts there can be ----

  ghost predicate KeyOf(ctx: Context, key: nat, x: set<nat>) {
    if key < |ctx.cols| then ctx.cols[key] == x
      else key - |ctx.cols| < |ctx.rows| && ctx.Extent(ctx.rows[key - |ctx.cols|]) == x
  }

  /** One for every attribute and every object at most, and the top. */
  lemma ConceptBound(ctx: Context, ext: seq<set<nat>>, covered: set<nat>, objs: set<nat>)
    requires Family(ctx, ext, covered, objs)
    ensures |ext| <= |ctx.cols| + |ctx.rows| + 1
  {
    var keys: seq<nat> := [];
    assert Distinct(ext);
    for c := 1 to |ext|
      invariant |keys| == c - 1
        && forall k | 0 <= k < |keys| :: keys[k] < |ctx.cols| + |ctx.rows| && KeyOf(ctx, keys[k], ext[k + 1])
    {
      var key: nat := KeyFor(ctx, covered, objs, ext[c]);
      keys := keys + [key];
    }
    forall i, j | 0 <= i < j < |keys| ensures keys[i] != keys[j] {
      assert ext[i + 1] != ext[j + 1];
      assert KeyOf(ctx, keys[i], ext[i + 1]) && KeyOf(ctx, keys[j], ext[j + 1]);
    }
    Pigeonhole(keys, |ctx.cols| + |ctx.rows|);
  }

  lemma KeyFor(ctx: Context, covered: set<nat>, objs: set<nat>, x: set<nat>) returns (key: nat)
    requires AttrConcept(ctx, covered, x) || ObjConcept(ctx, objs, x)
    ensures key < |ctx.cols| + |ctx.rows| && KeyOf(ctx, key, x)
  {
    if AttrConcept(ctx, covered, x) {
      key :| key in covered && key < |ctx.cols| && x == ctx.cols[key];
    } else {
      var o :| o in objs && o < |ctx.rows| && x == ctx.Extent(ctx.rows[o]);
      key := |ctx.cols| + o;
    }
  }

  // ---- the objects of a column ----

  /** After a column and the objects behind it, all ready objects have their concepts. */
  lemma AllReady(ctx: Context, covered: set<nat>, e: set<nat>, group: set<nat>, objs: set<nat>)
    requires ctx.Valid() && Frontier(ctx, covered, e) && group == AttrsIn(ctx, ctx.Attributes(), e)
    requires Ready(ctx, covered) + ObjsWith(ctx, e) <= objs
    requires forall o | o in objs :: o in Ready(ctx, covered) + ObjsWith(ctx, e) || o in Ready(ctx, covered + group)
    requires forall o | o in Ready(ctx, covered + group) && o in e :: o in objs
    ensures objs == Ready(ctx, covered + group)
  {
    OwnAreReady(ctx, covered, e, group);
    forall o | o in Ready(ctx, covered + group) && o !in Ready(ctx, covered) ensures o in e {
      var a :| a in ctx.rows[o] && a !in covered;
      assert a in group;
    }
  }

  lemma OwnAreReady(ctx: Context, covered: set<nat>, e: set<nat>, group: set<nat>)
    requires ctx.Valid() && Frontier(ctx, covered, e) && group == AttrsIn(ctx, ctx.Attributes(), e)
    ensures ObjsWith(ctx, e) <= Ready(ctx, covered + group)
  {
    var g :| 0 <= g < |ctx.cols| && ctx.cols[g] == e;
    IntentOfColumn(ctx, covered, e);
    forall o | o in ObjsWith(ctx, e) ensures ctx.rows[o] <= covered + group {
      OwnObjects(ctx, e, g, o);
    }
  }

  lemma TopReady(ctx: Context, group: set<nat>)
    requires ctx.Valid() && group == AttrsIn(ctx, ctx.Attributes(), ctx.Objects()) && group != {}
    ensures Ready(ctx, {}) + ObjsWith(ctx, ctx.Objects()) == Ready(ctx, group)
  {
    var g :| g in group;
    assert ctx.Intent(ctx.Objects()) == group;
    forall o: nat | o < |ctx.rows| ensures ctx.rows[o] <= group <==> ctx.Extent(ctx.rows[o]) == ctx.Objects() {
      OwnObjects(ctx, ctx.Objects(), g, o);
      forall b | b in group ensures b in ctx.rows[o] {
        assert o in ctx.cols[b];
      }
    }
    forall o: nat | o < |ctx.rows| ensures !(ctx.rows[o] <= {}) {
      assert o in ctx.cols[g] && g in ctx.rows[o];
    }
  }

  /** Before the objects of a column are looked at, those with concepts that are in it have
      its own concept. */
  lemma OnlyOwnYet(ctx: Context, covered: set<nat>, e: set<nat>, p: nat)
    requires ctx.Valid() && Frontier(ctx, covered, e) && p in Ready(ctx, covered) + ObjsWith(ctx, e) && p in e
    ensures p < |ctx.rows| && ctx.Extent(ctx.rows[p]) == e
  {
    var g :| 0 <= g < |ctx.cols| && ctx.cols[g] == e;
    assert g !in covered && g in ctx.rows[p];
  }

  /** The labels met on the way down to a new column, and its own, are its intent. */
  lemma IntentGathered(ctx: Context, ext: seq<set<nat>>, rint: seq<set<nat>>, covered: set<nat>, objs: set<nat>,
                       e: set<nat>, group: set<nat>, intent: set<nat>)
    requires ctx.Valid() && Family(ctx, ext, covered, objs) && Frontier(ctx, covered, e) && |rint| == |ext|
    requires forall c | 0 <= c < |ext| :: rint[c] == AttrsIn(ctx, covered, ext[c])
    requires group == AttrsIn(ctx, ctx.Attributes(), e)
    requires forall a: nat :: a in intent <==> a in group || exists d :: 0 <= d < |ext| && e <= ext[d] && a in rint[d]
    ensures intent == ctx.Intent(e)
  {
    IntentOfColumn(ctx, covered, e);
    forall a: nat ensures a in intent <==> a in ctx.Intent(e) {
      if a in ctx.Intent(e) && a in covered {
        assert ctx.cols[a] in ext;
        var d :| 0 <= d < |ext| && ext[d] == ctx.cols[a];
        assert a in rint[d];
      }
    }
  }
}
