/** What Ceres builds is the AOC-poset of the context. */
module CeresResults {
  import opened FiniteSets
  import opened FormalContext
  import opened AocPoset
  import opened LiveDiagram
  import opened AresTheory
  import opened AresStep
  import opened AresResults
  import opened DynOrders
  import opened CeresTheory
  import opened CeresSearch
  import opened CeresBlocks
  import opened Ceres

  /** With everything covered, the top has the labels of its extent. */
  lemma TopLabels(ctx: Context)
    requires ctx.Valid()
    ensures TopObjs(ctx, ctx.Attributes()) == ObjsWith(ctx, ctx.Objects())
  {
    var all := AttrsIn(ctx, ctx.Attributes(), ctx.Objects());
    assert ctx.Intent(ctx.Objects()) == all;
    forall o: nat | o < |ctx.rows| ensures ctx.rows[o] == all <==> ctx.Extent(ctx.rows[o]) == ctx.Objects() {
      RowClosed(ctx, o, o);
      if ctx.Extent(ctx.rows[o]) == ctx.Objects() {
        forall a | a in ctx.rows[o] ensures a in all {
          InColumn(ctx, a, o);
        }
        forall a | a in all ensures a in ctx.rows[o] {
          assert o in ctx.cols[a];
        }
      }
      if ctx.rows[o] == all {
        forall p | p in ctx.Objects() ensures ctx.rows[o] <= ctx.rows[p] {
          forall a | a in all ensures a in ctx.rows[p] {
            assert p in ctx.cols[a];
          }
        }
      }
    }
  }

  lemma SameLabels(ctx: Context, x: set<nat>)
    requires ctx.Valid()
    ensures Objs(ctx, |ctx.cols|, x) == ObjsWith(ctx, x)
      && Attrs(ctx, |ctx.cols|, x) == AttrsIn(ctx, ctx.Attributes(), x)
  {
    forall o: nat | o < |ctx.rows| ensures ObjExt(ctx, |ctx.cols|, o) == ctx.Extent(ctx.rows[o]) {
      AllAttributes(ctx, o);
    }
    hide ObjExt;
  }

  /** What introduces something is a concept of the family; the top is so when it has a
      label. */
  lemma Introduced(ctx: Context, ext: seq<set<nat>>, rext: seq<set<nat>>, rint: seq<set<nat>>, x: set<nat>)
    requires ctx.Valid() && |ctx.rows| > 0 && Family(ctx, ext, ctx.Attributes(), Ready(ctx, ctx.Attributes()))
    requires LabelsOk(ctx, ext, rext, rint, ctx.Attributes())
    ensures Intro(ctx, |ctx.cols|, x) ==> x in ext && (x == ctx.Objects() ==> rext[0] != {} || rint[0] != {})
    ensures x in ext && (x == ctx.Objects() ==> rext[0] != {} || rint[0] != {}) ==> Intro(ctx, |ctx.cols|, x)
  {
    IntroAll(ctx, x);
    TopLabels(ctx);
    hide Intro;
    if Introduces(ctx, x) {
      if o: nat :| o < |ctx.rows| && x == ctx.Extent(ctx.rows[o]) {
        assert o in Ready(ctx, ctx.Attributes());
        assert x == ctx.Objects() ==> o in ObjsWith(ctx, x);
      } else {
        var a: nat :| a < |ctx.cols| && x == ctx.cols[a];
        assert x == ctx.Objects() ==> a in AttrsIn(ctx, ctx.Attributes(), x);
      }
    }
    if x in ext && x != ctx.Objects() {
      var c :| 0 <= c < |ext| && ext[c] == x;
      assert AttrConcept(ctx, ctx.Attributes(), ext[c]) || ObjConcept(ctx, Ready(ctx, ctx.Attributes()), ext[c]);
    }
  }

  /** The end of the run: the top stays when it introduces something. */
  ghost function Kept(ext: seq<set<nat>>, live: set<nat>, lower: seq<set<nat>>, rext: seq<set<nat>>,
                      rint: seq<set<nat>>): Snap
    requires |rext| == |rint| == |lower| == |ext| > 0
  {
    if rext[0] == {} == rint[0] then Snap(ext, live - {0}, lower[0 := {}], rext, rint)
      else Snap(ext, live, lower, rext, rint)
  }

  lemma TopRemoved(ext: seq<set<nat>>, live: set<nat>, lower: seq<set<nat>>, upper: seq<set<nat>>)
    requires Rooted(ext, live, lower, upper)
    ensures LiveHasse(ext, live - {0}, lower[0 := {}])
  {
    RemoveHasse(ext, live, lower, 0);
    forall p | 0 <= p < |ext| ensures 0 !in lower[p] {
      if 0 in lower[p] {
        assert p in upper[0];
        UpperIsAbove(ext, live, lower, upper, 0, p);
      }
    }
    assert Removed(ext, live, lower, 0) == lower[0 := {}];
  }

  lemma EndIsOk(ctx: Context, ext: seq<set<nat>>, live: set<nat>, lower: seq<set<nat>>, upper: seq<set<nat>>,
                rext: seq<set<nat>>, rint: seq<set<nat>>)
    requires ctx.Valid() && |ctx.rows| > 0 && Family(ctx, ext, ctx.Attributes(), Ready(ctx, ctx.Attributes()))
    requires LabelsOk(ctx, ext, rext, rint, ctx.Attributes()) && Rooted(ext, live, lower, upper)
      && |rext| == |rint| == |lower| == |ext| > 0
    ensures AresOk(ctx, |ctx.cols|, Kept(ext, live, lower, rext, rint))
  {
    var s := Kept(ext, live, lower, rext, rint);
    TopRemoved(ext, live, lower, upper);
    TopLabels(ctx);
    assert ext[0] == ctx.Objects() && Distinct(ext) && live == Range(|ext|) && LiveHasse(ext, live, lower);
    hide Intro, Family, LiveHasse, TopObjs, Context.Valid, Objs, Attrs, ObjsWith, AttrsIn;
    forall c | c in s.live ensures c < |ext| && Intro(ctx, |ctx.cols|, ext[c])
      && rext[c] == Objs(ctx, |ctx.cols|, ext[c]) && rint[c] == Attrs(ctx, |ctx.cols|, ext[c]) {
      Introduced(ctx, ext, rext, rint, ext[c]);
      SameLabels(ctx, ext[c]);
    }
    forall x | Intro(ctx, |ctx.cols|, x) ensures HasExt(s.ext, s.live, x) {
      Introduced(ctx, ext, rext, rint, x);
      var c: nat :| c < |ext| && ext[c] == x;
      assert c in s.live;
    }
  }

  /** At first there is the top, with the objects that have no attribute. */
  lemma StartOk(ctx: Context, ext: seq<set<nat>>, rext: seq<set<nat>>, rint: seq<set<nat>>, lower: seq<set<nat>>,
                upper: seq<set<nat>>)
    requires ctx.Valid() && ext == [ctx.Objects()] && rint == [{}]
      && rext == [set o: nat | o < |ctx.rows| && ctx.rows[o] == {}]
    requires lower == [{}] && upper == [{}]
    ensures Family(ctx, ext, {}, Ready(ctx, {})) && LabelsOk(ctx, ext, rext, rint, {}) && Rooted(ext, {0}, lower, upper)
    ensures AttrsIn(ctx, {}, ctx.Objects()) == {}
  {
    assert AttrsIn(ctx, {}, ctx.Objects()) == {};
    forall o | o in Ready(ctx, {}) ensures ctx.Extent(ctx.rows[o]) == ext[0] {
      assert ctx.rows[o] == {};
    }
    assert LowerOf(ext, {0}, 0) == {};
  }

  /** The top without its edges and dead, unless it introduces something. */
  method DropTop(ord: DynOrder)
    requires ord.Valid() && Rooted(ord.ext, ord.Live(), ord.lower, ord.upper)
    modifies ord`lower, ord`upper, ord`alive
    ensures ord.Valid() && Snap(ord.ext, ord.Live(), ord.lower, ord.rext, ord.rint) == Kept(ord.ext, old(ord.Live()),
        old(ord.lower), ord.rext, ord.rint)
  {
    TopIsNoChild(ord.ext, ord.Live(), ord.lower, ord.upper);
    hide Mirrored, Rooted;
    if ord.rext[0] == {} && ord.rint[0] == {} {
      var parents, children := ord.Detach(0);
      EdgesGone(ord.lower, ord.upper);
      assert forall p | 0 <= p < |ord.ext| :: old(ord.lower)[p] - {0} == old(ord.lower)[p];
      assert ord.lower == old(ord.lower)[0 := {}];
      ord.RemoveConcept(0);
    }
  }

  lemma TopIsNoChild(ext: seq<set<nat>>, live: set<nat>, lower: seq<set<nat>>, upper: seq<set<nat>>)
    requires Rooted(ext, live, lower, upper)
    ensures |lower| == |ext| > 0 && 0 in live && forall p | 0 <= p < |ext| :: 0 !in lower[p]
  {
    forall p | 0 <= p < |ext| ensures 0 !in lower[p] {
      if 0 in lower[p] {
        assert p in upper[0];
        UpperIsAbove(ext, live, lower, upper, 0, p);
      }
    }
  }

  lemma EdgesGone(lower: seq<set<nat>>, upper: seq<set<nat>>)
    requires Mirrored(lower, upper) && |lower| > 0 && forall p | 0 <= p < |lower| :: 0 !in lower[p]
    ensures upper[0] == {}
  {
    assert forall p | p in upper[0] :: 0 in lower[p];
  }

  /** Ceres; without objects there is no result. */
  method RunCeres(ctx: Context)
      returns (ok: bool, ghost ext: seq<set<nat>>, rext: seq<set<nat>>, rint: seq<set<nat>>, edges: seq<(nat, nat)>)
    requires ctx.Valid()
    ensures ok <==> |ctx.rows| > 0
    ensures ok ==> IsAocPoset(ctx, ext, ChildrenOf(|ext|, edges), rext, rint) && LabelledOnce(ctx, rext, rint)
    ensures forall e, f | 0 <= e < f < |edges| :: edges[e] != edges[f]
  {
    hide Searcher.Valid, IsAocPoset, LabelledOnce, Mirrored, Family;
    ok, ext, rext, rint, edges := false, [], [], [], [];
    if |ctx.rows| == 0 {
      return;
    }
    ok := true;
    hide Context.Valid, Rooted, LabelsOk, Ready, AresOk, LiveHasse;
    var st := Start(ctx);
    var tab, done;
    ghost var attr;
    tab, done, attr := SortedTable(ctx);
    st.Columns(tab, done, attr);
    ghost var live, lower := st.ord.Live(), st.ord.lower;
    EndOfRun(st);
    DropTop(st.ord);
    ghost var s := Snap(st.ord.ext, st.ord.Live(), st.ord.lower, st.ord.rext, st.ord.rint);
    AresResults.DiagramOf(ctx, |ctx.cols|, s);
    ghost var ids: seq<nat>;
    ids, rext, rint, edges := st.ord.ToFlat();
    ext := Numbered(s.ext, ids);
    FlatIsPoset(ctx, s, ids, rext, rint, edges);
    PosetIsLabelledOnce(ctx, ext, ChildrenOf(|ext|, edges), rext, rint);
  }

  lemma EndOfRun(st: CeresState)
    requires st.AtColumn() && st.allCovered == st.ctx.Attributes()
    ensures var o := st.ord;
      |o.rext| == |o.rint| == |o.lower| == |o.ext| > 0 && Rooted(o.ext, o.Live(), o.lower, o.upper)
    ensures AresOk(st.ctx, |st.ctx.cols|, Kept(st.ord.ext, st.ord.Live(), st.ord.lower, st.ord.rext, st.ord.rint))
  {
    var o := st.ord;
    assert |o.rext| == |o.rint| == |o.lower| == |o.ext| > 0;
    hide Family, LabelsOk, Rooted, Ready, AresOk, Context.Valid, Kept;
    EndIsOk(st.ctx, o.ext, o.Live(), o.lower, o.upper, o.rext, o.rint);
  }

  method Start(ctx: Context) returns (st: CeresState)
    requires ctx.Valid() && |ctx.rows| > 0
    ensures fresh(st) && fresh(st.ord) && fresh(st.search) && st.ctx == ctx && st.AtColumn() && st.allCovered == {}
  {
    hide Mirrored, Family, LabelsOk, Rooted, Ready;
    var ord := new DynOrder();
    var top := ord.NewConcept();
    var search := new Searcher(ord, |ctx.rows| + |ctx.cols| + 2);
    st := new CeresState(ctx, ord, search);
    var empty := st.RowsEqual(ctx.Objects(), {}, {});
    ord.ext, ord.rext := ord.ext[top := ctx.Objects()], ord.rext[top := empty];
    assert empty == set o: nat | o < |ctx.rows| && ctx.rows[o] == {};
    assert ord.Live() == {0};
    StartOk(ctx, ord.ext, ord.rext, ord.rint, ord.lower, ord.upper);
  }
}
