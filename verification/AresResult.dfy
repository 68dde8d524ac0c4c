/** What Ares builds is the AOC-poset of the context. */
module AresResults {
  import opened FiniteSets
  import opened FormalContext
  import opened AocPoset
  import opened LiveDiagram
  import opened AresTheory
  import opened AresStep
  import opened DynOrders
  import opened Ares
  import Diagram

  // ---- all attributes ----

  lemma AllAttributes(ctx: Context, o: nat)
    requires ctx.Valid() && o < |ctx.rows|
    ensures ObjExt(ctx, |ctx.cols|, o) == ctx.Extent(ctx.rows[o])
  {
    assert ctx.rows[o] * Range(|ctx.cols|) == ctx.rows[o];
  }

  /** With all attributes, a set introduces something in the sense of the poset; only the
      context without objects and attributes makes an exception of its top. */
  lemma IntroAll(ctx: Context, x: set<nat>)
    requires ctx.Valid()
    ensures |ctx.rows| > 0 || |ctx.cols| > 0 ==> (Intro(ctx, |ctx.cols|, x) <==> Introduces(ctx, x))
    ensures |ctx.rows| == 0 == |ctx.cols| ==> Intro(ctx, 0, {}) && !Introduces(ctx, x)
  {
    forall o: nat | o < |ctx.rows| ensures ObjExt(ctx, |ctx.cols|, o) == ctx.Extent(ctx.rows[o]) {
      AllAttributes(ctx, o);
    }
    if |ctx.cols| == 0 && |ctx.rows| > 0 { TopIsObject(ctx); }
    assert |ctx.rows| == 0 ==> ctx.Objects() == {};
    hide ObjExt;
  }

  lemma LabelsAll(ctx: Context, x: set<nat>)
    requires ctx.Valid()
    ensures IsLabelled(ctx, x, Objs(ctx, |ctx.cols|, x), Attrs(ctx, |ctx.cols|, x))
  {
    forall o: nat | o < |ctx.rows| ensures ObjExt(ctx, |ctx.cols|, o) == ctx.Extent(ctx.rows[o]) {
      AllAttributes(ctx, o);
    }
    hide ObjExt;
  }

  // ---- the numbered order ----

  ghost function Numbered(ext: seq<set<nat>>, ids: seq<nat>): seq<set<nat>>
    requires forall i | 0 <= i < |ids| :: ids[i] < |ext|
  {
    seq(|ids|, i requires 0 <= i < |ids| => ext[ids[i]])
  }

  /** The lower covers of each concept, from the list of pairs child, parent. */
  ghost function ChildrenOf(n: nat, edges: seq<(nat, nat)>): (r: seq<set<nat>>)
    ensures |r| == n && forall c, p | 0 <= p < n && 0 <= c :: c in r[p] <==> c < n && (c, p) in edges
  {
    seq(n, p => set c: nat | c < n && (c, p) in edges)
  }

  ghost predicate Enumerates(ids: seq<nat>, live: set<nat>, n: nat) {
    NoRepeats(ids) && ToSet(ids) == live && live <= Range(n) && forall i | 0 <= i < |ids| :: ids[i] < n
  }

  lemma NumberedCover(ext: seq<set<nat>>, live: set<nat>, ids: seq<nat>, c: nat, p: nat)
    requires Enumerates(ids, live, |ext|) && c < |ids| && p < |ids|
    ensures Diagram.CoveredBy(Numbered(ext, ids), c, p) <==> IsCover(ext, live, ids[c], ids[p])
  {
    var num := Numbered(ext, ids);
    assert ids[c] in ToSet(ids) && ids[p] in ToSet(ids);
    if Diagram.CoveredBy(num, c, p) {
      forall k | k in live && k < |ext| ensures !(ext[ids[c]] < ext[k] < ext[ids[p]]) {
        assert k in ToSet(ids);
        var i: nat :| i < |ids| && ids[i] == k;
        assert num[i] == ext[k];
      }
    }
    if IsCover(ext, live, ids[c], ids[p]) {
      forall i | 0 <= i < |num| ensures !(num[c] < num[i] < num[p]) {
        assert ids[i] in ToSet(ids);
      }
    }
  }

  lemma NumberedDiagram(ext: seq<set<nat>>, live: set<nat>, lower: seq<set<nat>>, ids: seq<nat>, edges: seq<(nat, nat)>)
    requires LiveHasse(ext, live, lower) && Enumerates(ids, live, |ext|) && ChildToParent(lower, ids, edges)
    ensures Distinct(Numbered(ext, ids)) && Diagram.Covers(Numbered(ext, ids), ChildrenOf(|ids|, edges))
  {
    var num, children := Numbered(ext, ids), ChildrenOf(|ids|, edges);
    forall c: nat, p: nat | c < |ids| && p < |ids| ensures c in children[p] <==> Diagram.CoveredBy(num, c, p) {
      NumberedCover(ext, live, ids, c, p);
      assert lower[ids[p]] == LowerOf(ext, live, ids[p]);
      EdgesInside(ext, live, lower, ids[p], ids[c]);
    }
    forall i, j | 0 <= i < j < |num| ensures num[i] != num[j] {
      assert ids[i] != ids[j] && ids[i] in ToSet(ids) && ids[j] in ToSet(ids);
    }
  }

  lemma NumberedExtents(ext: seq<set<nat>>, live: set<nat>, ids: seq<nat>, x: set<nat>)
    requires Enumerates(ids, live, |ext|)
    ensures x in Numbered(ext, ids) <==> HasExt(ext, live, x)
  {
    var num := Numbered(ext, ids);
    if HasExt(ext, live, x) {
      var c :| c in live && c < |ext| && ext[c] == x;
      assert c in ToSet(ids);
      var i: nat :| i < |ids| && ids[i] == c;
      assert num[i] == x;
    }
    if x in num {
      var i :| 0 <= i < |num| && num[i] == x;
      assert ids[i] in ToSet(ids);
    }
  }

  lemma ExactlyIntro(ctx: Context, k: nat, s: Snap, x: set<nat>)
    requires AresOk(ctx, k, s)
    ensures HasExt(s.ext, s.live, x) <==> Intro(ctx, k, x)
  {
    hide Intro;
  }

  lemma FlatIsPoset(ctx: Context, s: Snap, ids: seq<nat>, rext: seq<set<nat>>, rint: seq<set<nat>>,
                    edges: seq<(nat, nat)>)
    requires ctx.Valid() && AresOk(ctx, |ctx.cols|, s) && Enumerates(ids, s.live, |s.ext|)
      && ChildToParent(s.lower, ids, edges)
    requires |rext| == |rint| == |ids|
      && forall i | 0 <= i < |ids| ::
        ids[i] < |s.rext| && ids[i] < |s.rint| && rext[i] == s.rext[ids[i]] && rint[i] == s.rint[ids[i]]
    ensures IsAocPoset(ctx, Numbered(s.ext, ids), ChildrenOf(|ids|, edges), rext, rint)
      <==> |ctx.rows| > 0 || |ctx.cols| > 0
  {
    var num := Numbered(s.ext, ids);
    forall i | 0 <= i < |ids| ensures IsLabelled(ctx, num[i], rext[i], rint[i]) {
      assert ids[i] in ToSet(ids);
      LabelsAll(ctx, num[i]);
    }
    NumberedDiagram(s.ext, s.live, s.lower, ids, edges);
    hide Diagram.Covers, IsLabelled, Intro, Introduces, Enumerates, HasExt, ChildToParent, ChildrenOf;
    forall x ensures x in num <==> Intro(ctx, |ctx.cols|, x) {
      NumberedExtents(s.ext, s.live, ids, x);
      ExactlyIntro(ctx, |ctx.cols|, s, x);
    }
    forall x ensures |ctx.rows| > 0 || |ctx.cols| > 0 ==> (Intro(ctx, |ctx.cols|, x) <==> Introduces(ctx, x)) {
      IntroAll(ctx, x);
    }
    IntroAll(ctx, {});
  }

  /** Before the first attribute there is the set of all objects. */
  lemma TopAlone(ctx: Context, s: Snap)
    requires ctx.Valid() && s == Snap([ctx.Objects()], {0}, [{}], [ctx.Objects()], [{}])
    ensures AresOk(ctx, 0, s)
  {
    forall o: nat | o < |ctx.rows| ensures ObjExt(ctx, 0, o) == ctx.Objects() {
      assert ctx.rows[o] * Range(0) == {};
    }
    hide ObjExt;
    assert Objs(ctx, 0, ctx.Objects()) == ctx.Objects();
    assert s.ext[0] == ctx.Objects();
    forall x | Intro(ctx, 0, x) ensures HasExt(s.ext, s.live, x) {
      assert x == ctx.Objects();
    }
  }

  /** Ares, from the top alone through all attributes. */
  method RunAres(ctx: Context)
      returns (ghost ext: seq<set<nat>>, rext: seq<set<nat>>, rint: seq<set<nat>>, edges: seq<(nat, nat)>)
    requires ctx.Valid()
    ensures IsAocPoset(ctx, ext, ChildrenOf(|ext|, edges), rext, rint) <==> |ctx.rows| > 0 || |ctx.cols| > 0
    ensures |ctx.rows| > 0 || |ctx.cols| > 0 ==> LabelledOnce(ctx, rext, rint)
    ensures forall e, f | 0 <= e < f < |edges| :: edges[e] != edges[f]
  {
    hide Context.Valid, AresOk, IsAocPoset, LiveHasse, Mirrored, LabelledOnce;
    var dyn := new DynOrder();
    var top := dyn.NewConcept();
    dyn.ext, dyn.rext := dyn.ext[top := ctx.Objects()], dyn.rext[top := ctx.Objects()];
    var st := new AresState(ctx, dyn);
    assert st.View() == Snap([ctx.Objects()], {0}, [{}], [ctx.Objects()], [{}]);
    TopAlone(ctx, st.View());
    for a := 0 to |ctx.cols|
      invariant fresh(st) && fresh(dyn) && st.ctx == ctx && st.dyn == dyn && st.Valid() && AresOk(ctx, a, st.View())
    {
      st.Step(a);
    }
    ghost var s := st.View();
    DiagramOf(ctx, |ctx.cols|, s);
    ghost var ids: seq<nat>;
    ids, rext, rint, edges := dyn.ToFlat();
    ext := Numbered(s.ext, ids);
    FlatIsPoset(ctx, s, ids, rext, rint, edges);
    if |ctx.rows| > 0 || |ctx.cols| > 0 { PosetIsLabelledOnce(ctx, ext, ChildrenOf(|ext|, edges), rext, rint); }
  }

  lemma DiagramOf(ctx: Context, k: nat, s: Snap)
    requires AresOk(ctx, k, s)
    ensures LiveHasse(s.ext, s.live, s.lower) && s.live <= Range(|s.ext|)
  {}
}
