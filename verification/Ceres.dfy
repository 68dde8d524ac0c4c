/** Ceres: columns from the largest to the smallest, each followed by the objects whose
    attributes are then all covered. */
module Ceres {
  import opened FiniteSets
  import opened FormalContext
  import opened DynOrders
  import opened CeresTheory
  import opened CeresObjects
  import opened CeresSearch
  import opened CeresBlocks
  import LiveDiagram

  class CeresState {
    const ctx: Context
    const ord: DynOrder
    const search: Searcher
    var allCovered: set<nat>
    var topIntent: set<nat>

    /** The order holds the concepts of the covered attributes and of the given objects, with
        their covers and labels. */
    ghost predicate Sound(objs: set<nat>)
      reads this, ord, search
    {
      && ctx.Valid() && |ctx.rows| > 0 && search.ord == ord && search.Valid() && ord.Valid()
      && |search.marks| == |ctx.rows| + |ctx.cols| + 2
      && Rooted(ord.ext, ord.Live(), ord.lower, ord.upper)
      && Family(ctx, ord.ext, allCovered, objs) && LabelsOk(ctx, ord.ext, ord.rext, ord.rint, allCovered)
    }

    constructor (ctx: Context, ord: DynOrder, search: Searcher)
      ensures this.ctx == ctx && this.ord == ord && this.search == search && allCovered == {} == topIntent
    {
      this.ctx, this.ord, this.search, allCovered, topIntent := ctx, ord, search, {}, {};
    }

    // ---- the objects behind a column ----

    /** The concepts of the objects of the column e, unless their concept is that of e. */
    method Wolp(e: set<nat>, own: set<nat>, ghost objs0: set<nat>) returns (ghost objs: set<nat>)
      requires Sound(objs0) && ColumnDone(ctx, allCovered, e) && own == ObjsWith(ctx, e) <= objs0
      requires forall p | p in objs0 && p in e :: p < |ctx.rows| && ctx.Extent(ctx.rows[p]) == e
      modifies search, ord
      ensures Sound(objs) && objs0 <= objs
      ensures forall p | p in objs :: p in objs0 || p in Ready(ctx, allCovered)
      ensures forall p | p in Ready(ctx, allCovered) && p in e :: p in objs
    {
      hide Rooted, Family, LabelsOk, Context.Valid, LiveDiagram.Mirrored, Listing, ConsumedOk, SeenRow, Through,
          ColumnDone;
      var list := ListObjects(ctx, e, own);
      objs := objs0;
      var consumed := seq(|list|, k => false);
      ListingRange(ctx, e, list);
      NothingSeen(ctx, list, allCovered, consumed, objs0);
      for i := 0 to |list|
        invariant Sound(objs) && ConsumedOk(ctx, list, i, allCovered, consumed)
          && Through(ctx, list, i, allCovered, objs0, objs)
      {
        consumed, objs := WolpOne(list, i, e, consumed, objs0, objs);
      }
      ThroughAll(ctx, e, list, allCovered, objs0, objs);
    }

    method WolpOne(list: seq<nat>, i: nat, ghost e: set<nat>, consumed0: seq<bool>, ghost objs0: set<nat>,
                   ghost objs1: set<nat>)
        returns (consumed: seq<bool>, ghost objs: set<nat>)
      requires Sound(objs1) && ColumnDone(ctx, allCovered, e) && Listing(ctx, e, list) && i < |list|
      requires ConsumedOk(ctx, list, i, allCovered, consumed0) && Through(ctx, list, i, allCovered, objs0, objs1)
      requires forall p | p in objs0 && p in e :: p < |ctx.rows| && ctx.Extent(ctx.rows[p]) == e
      modifies search, ord
      ensures Sound(objs) && ConsumedOk(ctx, list, i + 1, allCovered, consumed)
        && Through(ctx, list, i + 1, allCovered, objs0, objs)
    {
      hide Context.Extent, Rooted, Family, LabelsOk, Context.Valid, SeenRow, Earlier, ObjsWith;
      ListingRange(ctx, e, list);
      Unseen(ctx, list, i, allCovered, consumed0);
      assert |consumed0| == |list|;
      ThroughNext(ctx, list, i, allCovered, objs0, objs1);
      IsColumn(ctx, allCovered, e);
      hide LiveDiagram.Mirrored, Listing, ConsumedOk, Through, ColumnDone;
      consumed, objs := consumed0, objs1;
      if consumed[i] || !(ctx.rows[list[i]] <= allCovered) {
        PassedOver(ctx, list, i, allCovered, consumed);
        return;
      }
      var ext, rext;
      NextIsNew(ctx, e, list, i, allCovered, consumed, objs0, objs);
      ext, rext, consumed := Collect(ctx, list, e, i, allCovered, consumed);
      InsertObject(list[i], e, ext, rext, objs);
      objs := objs + ObjsWith(ctx, ext);
    }

    method InsertObject(o: nat, ghost e: set<nat>, ext: set<nat>, rext: set<nat>, ghost objs: set<nat>)
      requires Sound(objs) && ColumnDone(ctx, allCovered, e) && o < |ctx.rows| && ext == ctx.Extent(ctx.rows[o])
        && rext == ObjsWith(ctx, ext)
      requires o in e && ext != e && Earlier(ctx, e, objs, o)
      modifies search, ord
      ensures Sound(objs + ObjsWith(ctx, ext))
    {
      hide Rooted, LabelsOk, ColumnDone, LiveDiagram.Mirrored, Earlier, ObjsWith;
      ConceptBound(ctx, ord.ext, allCovered, objs);
      forall d | 0 <= d < |ord.ext| ensures !(ord.ext[d] <= ext) && ext <= ctx.Objects() {
        NothingInsideObject(ctx, ord.ext, allCovered, objs, e, o, d);
      }
      ObjectAdded(ctx, ord.ext, ord.rext, ord.rint, allCovered, objs, e, o);
      assert |ord.ext| > 0 && ord.ext[0] == ctx.Objects();
      hide Family, Context.Valid;
      var c, intent := search.Insert(ext, ctx.rows[o], rext, {}, false);
    }

    // ---- a column ----

    /** All ready objects have their concepts, and the intent of the top is up to date. */
    ghost predicate AtColumn()
      reads this, ord, search
    {
      Sound(Ready(ctx, allCovered)) && topIntent == AttrsIn(ctx, allCovered, ctx.Objects())
    }

    /** The objects of e with exactly that row. */
    method RowsEqual(e: set<nat>, intent: set<nat>, rext0: set<nat>) returns (rext: set<nat>)
      ensures rext == rext0 + set o: nat | o < |ctx.rows| && o in e && ctx.rows[o] == intent
    {
      rext := rext0;
      for o := 0 to |ctx.rows|
        invariant forall p: nat :: p in rext <==> p in rext0 || (p < o && p in e && ctx.rows[p] == intent)
      {
        if o in e && ctx.rows[o] == intent {
          rext := rext + {o};
        }
      }
    }

    /** One column: its concept, or the top when it holds all objects, and the objects behind
        it. */
    method Treat(p: PreConcept, sizeToDo: nat)
      requires AtColumn() && Frontier(ctx, allCovered, p.ext) && sizeToDo == |p.ext|
      requires p.intent == p.rint == AttrsIn(ctx, ctx.Attributes(), p.ext) && p.rext == {}
      modifies this, search, ord
      ensures AtColumn() && allCovered == old(allCovered) + p.rint
    {
      hide Rooted, Family, LabelsOk, LiveDiagram.Mirrored, Ready, AttrsIn;
      FullOrNot(ctx, allCovered, p.ext);
      hide Context.Valid, Frontier;
      if sizeToDo < |ctx.rows| {
        TreatBelow(p);
      } else {
        TreatTop(p);
      }
    }

    method TreatBelow(p: PreConcept)
      requires AtColumn() && Frontier(ctx, allCovered, p.ext) && p.ext != ctx.Objects()
      requires p.intent == p.rint == AttrsIn(ctx, ctx.Attributes(), p.ext) && p.rext == {}
      modifies this, search, ord
      ensures AtColumn() && allCovered == old(allCovered) + p.rint
    {
      ghost var covered, objs := allCovered, Ready(ctx, allCovered);
      BelowDone(ctx, covered, p.ext, p.rint);
      hide Rooted, Family, LabelsOk, LiveDiagram.Mirrored, Ready, AttrsIn, Context.Valid, Frontier, ObjsWith,
          ColumnDone;
      var rext := InsertColumn(p);
      objs := objs + ObjsWith(ctx, p.ext);
      objs := Wolp(p.ext, rext, objs);
      AllReady(ctx, covered, p.ext, p.rint, objs);
    }

    /** The concept of a column, with the objects that it introduces. */
    method InsertColumn(p: PreConcept) returns (rext: set<nat>)
      requires AtColumn() && Frontier(ctx, allCovered, p.ext) && p.ext != ctx.Objects()
      requires p.intent == p.rint == AttrsIn(ctx, ctx.Attributes(), p.ext) && p.rext == {}
      modifies `allCovered, search, ord
      ensures allCovered == old(allCovered) + p.rint && rext == ObjsWith(ctx, p.ext)
      ensures Sound(old(Ready(ctx, allCovered)) + rext)
    {
      ghost var covered, objs := allCovered, Ready(ctx, allCovered);
      ghost var ext0, rext0, rint0 := ord.ext, ord.rext, ord.rint;
      BelowReady(ctx, ext0, rint0, rext0, covered, objs, p.ext, p.rint);
      hide Rooted, Family, LabelsOk, LiveDiagram.Mirrored, Ready, AttrsIn, Context.Valid, Frontier, ObjsWith,
          IntentMet;
      var c, intent := search.Insert(p.ext, p.intent, p.rext, p.rint, true);
      OwnRext(ctx, ext0, rext0, rint0, covered, objs, p.ext, p.rint, intent);
      rext := RowsEqual(p.ext, intent, p.rext);
      allCovered := allCovered + p.rint;
      ord.rext := ord.rext[c := rext];
      assert ord.rext == rext0 + [rext];
      assert Family(ctx, ord.ext, allCovered, objs + rext);
      assert LabelsOk(ctx, ord.ext, ord.rext, ord.rint, allCovered);
      assert Rooted(ord.ext, ord.Live(), ord.lower, ord.upper);
    }

    method TreatTop(p: PreConcept)
      requires AtColumn() && Frontier(ctx, allCovered, p.ext) && p.ext == ctx.Objects()
      requires p.intent == p.rint == AttrsIn(ctx, ctx.Attributes(), p.ext)
      modifies `allCovered, `topIntent, ord`rext, ord`rint
      ensures AtColumn() && allCovered == old(allCovered) + p.rint
    {
      hide Frontier, AttrsIn, Rooted, Family, Context.Valid, TopObjs;
      ghost var covered, group, objs := allCovered, p.rint, Ready(ctx, allCovered);
      TopReadied(ctx, ord.ext, ord.rext, ord.rint, covered, objs, group);
      hide LabelsOk, LiveDiagram.Mirrored, Ready, ObjsWith;
      topIntent := topIntent + p.intent;
      ord.rint := ord.rint[0 := ord.rint[0] + p.rint];
      allCovered := allCovered + ord.rint[0];
      var rext := RowsEqual(ord.ext[0], topIntent, ord.rext[0]);
      ord.rext := ord.rext[0 := rext];
      assert allCovered == covered + group;
    }

    // ---- the columns of one size ----

    /** Gives the concepts to the columns of a block, in order; those merged into others are
        passed over. */
    method TreatBlock(tab: seq<PreConcept>, done0: seq<bool>, start: nat, end: nat, ghost attr: seq<nat>)
      requires AtColumn() && Sorted(ctx, attr) && IsBlock(ctx, attr, start, end) && allCovered == ToSet(attr[..start])
      requires |tab| == |attr| == |done0| && BlockMerged(ctx, attr, tab, done0, start, end, end)
      modifies this, search, ord
      ensures AtColumn() && allCovered == ToSet(attr[..end])
    {
      hide Sorted, BlockMerged, Sound, Ready, AttrsIn, Context.Valid;
      var done := done0;
      var sizeToDo := |tab[start].ext|;
      BlockStart(ctx, attr, tab, done0, start, end);
      for i := start to end
        invariant AtColumn() && allCovered == CoveredAt(ctx, attr, done0, start, i)
        invariant |done| == |done0| && forall p | i <= p < end :: done[p] == done0[p]
      {
        NextInBlock(ctx, attr, tab, done0, start, end, i);
        if done[i] {
          continue;
        }
        assert ctx.Valid() by { ValidHere(); }
        Treat(tab[i], sizeToDo);
        done := done[i := true];
      }
      BlockCovered(ctx, attr, tab, done0, start, end);
    }

    /** All columns, block after block. */
    method Columns(tab0: seq<PreConcept>, done0: seq<bool>, ghost attr: seq<nat>)
      requires AtColumn() && allCovered == {} && CeresBlocks.Sorted(ctx, attr) && Fresh(ctx, attr, tab0, done0, 0)
      modifies this, search, ord
      ensures AtColumn() && allCovered == ctx.Attributes()
    {
      hide CeresState.AtColumn, Sorted, Fresh, IsBlock, BlockMerged, Narrows, Stands, MergedAway;
      var tab, done := tab0, done0;
      var startIndex := 0;
      SortedSize(ctx, attr, tab, done);
      assert attr[..0] == [];
      hide Sound, Ready, AttrsIn, Context.Valid;
      while startIndex < |tab|
        invariant startIndex <= |tab| == |attr| == |done| && AtColumn() && allCovered == ToSet(attr[..startIndex])
          && Fresh(ctx, attr, tab, done, startIndex)
        invariant 0 < startIndex < |attr| ==> Narrows(ctx, attr, startIndex)
      {
        var endIndex;
        tab, done, endIndex := MergeBlock(tab, done, startIndex, ctx, attr);
        BlockRange(ctx, attr, startIndex, endIndex);
        TreatBlock(tab, done, startIndex, endIndex, attr);
        startIndex := endIndex;
      }
      assert attr[..startIndex] == attr;
      AllCovered(ctx, attr);
    }

    lemma ValidHere()
      requires AtColumn()
      ensures ctx.Valid()
    {}
  }

  // ---- what a column starts from and comes to ----

  lemma AllCovered(ctx: Context, attr: seq<nat>)
    requires CeresBlocks.Sorted(ctx, attr)
    ensures ToSet(attr) == ctx.Attributes()
  {
    assert forall a | a in attr :: a < |ctx.cols|;
  }

  lemma FullOrNot(ctx: Context, covered: set<nat>, e: set<nat>)
    requires ctx.Valid() && Frontier(ctx, covered, e)
    ensures |e| < |ctx.rows| <==> e != ctx.Objects()
  {
    var g :| 0 <= g < |ctx.cols| && ctx.cols[g] == e;
    assert e <= ctx.Objects();
    RangeCard(|ctx.rows|);
    SubsetCard(e, ctx.Objects());
  }

  /** What the insertion of a column and of the objects behind it starts from. */
  lemma BelowReady(ctx: Context, ext: seq<set<nat>>, rint: seq<set<nat>>, rext: seq<set<nat>>, covered: set<nat>,
                   objs: set<nat>, e: set<nat>, group: set<nat>)
    requires ctx.Valid() && Family(ctx, ext, covered, objs) && objs == Ready(ctx, covered)
      && Frontier(ctx, covered, e) && e != ctx.Objects()
    requires LabelsOk(ctx, ext, rext, rint, covered) && group == AttrsIn(ctx, ctx.Attributes(), e)
    ensures |ext| <= |ctx.cols| + |ctx.rows| + 1 && |rext| == |rint| == |ext| > 0 && e <= ext[0]
      && forall d | 0 <= d < |ext| :: !(ext[d] <= e)
    ensures Family(ctx, ext + [e], covered + group, objs + ObjsWith(ctx, e))
    ensures LabelsOk(ctx, ext + [e], rext + [ObjsWith(ctx, e)], rint + [group], covered + group)
  {
    ConceptBound(ctx, ext, covered, objs);
    ColumnAdded(ctx, ext, covered, objs, e, group);
    CeresTheory.ColumnLabels(ctx, ext, rext, rint, covered, objs, e, group);
    NothingInsideColumn(ctx, ext, covered, objs, e, 0);
    assert |rext| == |rint| == |ext|;
    hide LabelsOk, Ready;
    forall d | 0 <= d < |ext| ensures !(ext[d] <= e) {
      NothingInsideColumn(ctx, ext, covered, objs, e, d);
    }
  }

  /** What the objects behind a column start from. */
  lemma BelowDone(ctx: Context, covered: set<nat>, e: set<nat>, group: set<nat>)
    requires ctx.Valid() && Frontier(ctx, covered, e) && e != ctx.Objects()
      && group == AttrsIn(ctx, ctx.Attributes(), e)
    ensures ColumnDone(ctx, covered + group, e)
      && AttrsIn(ctx, covered + group, ctx.Objects()) == AttrsIn(ctx, covered, ctx.Objects())
    ensures forall p | p in Ready(ctx, covered) + ObjsWith(ctx, e)
      && p in e :: p < |ctx.rows| && ctx.Extent(ctx.rows[p]) == e
  {
    forall p | p in Ready(ctx, covered) + ObjsWith(ctx, e) && p in e
      ensures p < |ctx.rows| && ctx.Extent(ctx.rows[p]) == e {
      OnlyOwnYet(ctx, covered, e, p);
    }
  }

  lemma OwnRext(ctx: Context, ext: seq<set<nat>>, rext: seq<set<nat>>, rint: seq<set<nat>>, covered: set<nat>,
                objs: set<nat>, e: set<nat>, group: set<nat>, intent: set<nat>)
    requires ctx.Valid() && Family(ctx, ext, covered, objs) && Frontier(ctx, covered, e)
      && LabelsOk(ctx, ext, rext, rint, covered) && |rint| == |ext|
    requires group == AttrsIn(ctx, ctx.Attributes(), e) && IntentMet(ext, rint, e, group, true, intent)
    ensures {} + (set o: nat | o < |ctx.rows| && o in e && ctx.rows[o] == intent) == ObjsWith(ctx, e)
  {
    IntentGathered(ctx, ext, rint, covered, objs, e, group, intent);
    var g :| 0 <= g < |ctx.cols| && ctx.cols[g] == e;
    forall o: nat | o < |ctx.rows| ensures o in e && ctx.rows[o] == intent <==> o in ObjsWith(ctx, e) {
      OwnObjects(ctx, e, g, o);
    }
  }

  lemma TopReadied(ctx: Context, ext: seq<set<nat>>, rext: seq<set<nat>>, rint: seq<set<nat>>, covered: set<nat>,
                   objs: set<nat>, group: set<nat>)
    requires ctx.Valid() && |ctx.rows| > 0 && Family(ctx, ext, covered, objs) && objs == Ready(ctx, covered)
      && Frontier(ctx, covered, ctx.Objects())
    requires LabelsOk(ctx, ext, rext, rint, covered) && group == AttrsIn(ctx, ctx.Attributes(), ctx.Objects())
    ensures |rext| == |rint| == |ext| > 0 && covered == {} && rint[0] + group == group
      && AttrsIn(ctx, covered, ctx.Objects()) == {}
    ensures AttrsIn(ctx, covered + group, ctx.Objects()) == group && ext[0] == ctx.Objects()
    ensures rext[0] + (set o: nat | o < |ctx.rows| && o in ctx.Objects() && ctx.rows[o] == group) == TopObjs(ctx, group)
    ensures Family(ctx, ext, covered + group, Ready(ctx, covered + group))
    ensures LabelsOk(ctx, ext, rext[0 := TopObjs(ctx, group)], rint[0 := group], covered + group)
  {
    TopColumn(ctx, ext, rext, rint, covered, objs, group);
    var g :| 0 <= g < |ctx.cols| && ctx.cols[g] == ctx.Objects();
    assert g in group;
    TopReady(ctx, group);
    assert (set o: nat | o < |ctx.rows| && o in ctx.Objects() && ctx.rows[o] == group) == (set o: nat | o < |ctx.rows|
      && ctx.rows[o] == group);
  }

  lemma ListingRange(ctx: Context, e: set<nat>, list: seq<nat>)
    requires Listing(ctx, e, list)
    ensures forall l | 0 <= l < |list| :: list[l] < |ctx.rows| && list[l] in e && ctx.Extent(ctx.rows[list[l]]) != e
  {
    assert forall l | 0 <= l < |list| :: list[l] in list;
  }

  /** What the objects before place i have come to: all that share a covered row with one of
      them have their concept. */
  ghost predicate Through(ctx: Context, list: seq<nat>, i: nat, covered: set<nat>, objs0: set<nat>, objs: set<nat>)
    requires forall l | 0 <= l < |list| :: list[l] < |ctx.rows|
  {
    && objs0 <= objs
    && (forall p | p in objs
      && p !in objs0 :: p < |ctx.rows| && ctx.rows[p] <= covered && SeenRow(ctx, list, i, ctx.rows[p]))
    && forall p: nat | p < |ctx.rows| && ctx.rows[p] <= covered && SeenRow(ctx, list, i, ctx.rows[p]) :: p in objs
  }

  lemma IsColumn(ctx: Context, covered: set<nat>, e: set<nat>)
    requires ColumnDone(ctx, covered, e)
    ensures exists a :: 0 <= a < |ctx.cols| && ctx.cols[a] == e
  {}

  lemma NothingSeen(ctx: Context, list: seq<nat>, covered: set<nat>, consumed: seq<bool>, objs0: set<nat>)
    requires (forall l | 0 <= l < |list| :: list[l] < |ctx.rows|) && |consumed| == |list|
      && forall j | 0 <= j < |list| :: !consumed[j]
    ensures ConsumedOk(ctx, list, 0, covered, consumed) && Through(ctx, list, 0, covered, objs0, objs0)
  {}

  lemma Unseen(ctx: Context, list: seq<nat>, i: nat, covered: set<nat>, consumed: seq<bool>)
    requires (forall l | 0 <= l < |list| :: list[l] < |ctx.rows|) && i < |list|
      && ConsumedOk(ctx, list, i, covered, consumed)
    ensures consumed[i] <==> ctx.rows[list[i]] <= covered && SeenRow(ctx, list, i, ctx.rows[list[i]])
    ensures forall r :: SeenRow(ctx, list, i + 1, r) <==> SeenRow(ctx, list, i, r) || ctx.rows[list[i]] == r
  {
    hide SeenRow;
    forall r ensures SeenRow(ctx, list, i + 1, r) <==> SeenRow(ctx, list, i, r) || ctx.rows[list[i]] == r {
      SeenNext(ctx, list, i, r);
    }
  }

  lemma PassedOver(ctx: Context, list: seq<nat>, i: nat, covered: set<nat>, consumed: seq<bool>)
    requires (forall l | 0 <= l < |list| :: list[l] < |ctx.rows|) && i < |list|
      && ConsumedOk(ctx, list, i, covered, consumed)
    requires consumed[i] || !(ctx.rows[list[i]] <= covered)
    ensures ConsumedOk(ctx, list, i + 1, covered, consumed)
  {
    ConsumedNext(ctx, list, i, covered, consumed, consumed);
  }

  /** The next object's concept is new: what came before is outside the column, has the
      column's own concept, or another row that is not larger. */
  lemma NextIsNew(ctx: Context, e: set<nat>, list: seq<nat>, i: nat, covered: set<nat>, consumed: seq<bool>,
                  objs0: set<nat>, objs: set<nat>)
    requires Listing(ctx, e, list) && i < |list| && ConsumedOk(ctx, list, i, covered, consumed) && !consumed[i]
      && ctx.rows[list[i]] <= covered
    requires forall p | p in objs0 && p in e :: p < |ctx.rows| && ctx.Extent(ctx.rows[p]) == e
    requires Through(ctx, list, i, covered, objs0, objs)
    ensures Earlier(ctx, e, objs, list[i])
  {
    forall p | p in objs && p < |ctx.rows| && p !in objs0
      ensures |ctx.rows[p]| <= |ctx.rows[list[i]]| && ctx.rows[p] != ctx.rows[list[i]] {
      var k :| 0 <= k < i && k < |list| && ctx.rows[list[k]] == ctx.rows[p];
      assert |ctx.rows[list[k]]| <= |ctx.rows[list[i]]|;
    }
  }

  lemma ThroughNext(ctx: Context, list: seq<nat>, i: nat, covered: set<nat>, objs0: set<nat>, objs: set<nat>)
    requires ctx.Valid() && (forall l | 0 <= l < |list| :: list[l] < |ctx.rows|) && i < |list|
      && Through(ctx, list, i, covered, objs0, objs)
    ensures ctx.rows[list[i]] <= covered
      ==> Through(ctx, list, i + 1, covered, objs0, objs + ObjsWith(ctx, ctx.Extent(ctx.rows[list[i]])))
    ensures !(ctx.rows[list[i]] <= covered) || SeenRow(ctx, list, i, ctx.rows[list[i]])
      ==> Through(ctx, list, i + 1, covered, objs0, objs)
  {
    hide SeenRow;
    forall p: nat | p < |ctx.rows|
      ensures p in ObjsWith(ctx, ctx.Extent(ctx.rows[list[i]])) <==> ctx.rows[p] == ctx.rows[list[i]]
      ensures SeenRow(ctx, list, i + 1, ctx.rows[p])
        <==> SeenRow(ctx, list, i, ctx.rows[p]) || ctx.rows[list[i]] == ctx.rows[p]
    {
      RowClosed(ctx, list[i], p);
      SeenNext(ctx, list, i, ctx.rows[p]);
    }
  }

  lemma ThroughAll(ctx: Context, e: set<nat>, list: seq<nat>, covered: set<nat>, objs0: set<nat>, objs: set<nat>)
    requires Listing(ctx, e, list) && ObjsWith(ctx, e) <= objs0 && Through(ctx, list, |list|, covered, objs0, objs)
    ensures objs0 <= objs && forall p | p in objs :: p in objs0 || p in Ready(ctx, covered)
    ensures forall p | p in Ready(ctx, covered) && p in e :: p in objs
  {
    forall p | p in Ready(ctx, covered) && p in e ensures p in objs {
      if ctx.Extent(ctx.rows[p]) != e {
        assert p in list;
        var k :| 0 <= k < |list| && list[k] == p;
        assert SeenRow(ctx, list, |list|, ctx.rows[p]);
      }
    }
  }
}
