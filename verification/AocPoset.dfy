/** The AOC-poset of a context: its object concepts and attribute concepts, ordered by
    inclusion of extents. */
module AocPoset {
  import opened FiniteSets
  import opened FormalContext
  import opened Diagram
  import opened Graphs
  import opened Reachability

  /** x is the extent of the concept that introduces some object or attribute. */
  ghost predicate Introduces(ctx: Context, x: set<nat>) {
    (exists o: nat :: o < |ctx.rows| && x == ctx.Extent(ctx.rows[o]))
      || (exists a: nat :: a < |ctx.cols| && x == ctx.cols[a])
  }

  /** The labels of a concept: the objects and attributes it introduces. */
  ghost predicate IsLabelled(ctx: Context, x: set<nat>, rext: set<nat>, rint: set<nat>) {
    && (forall o: nat :: o in rext <==> o < |ctx.rows| && ctx.Extent(ctx.rows[o]) == x)
    && (forall a: nat :: a in rint <==> a < |ctx.cols| && ctx.cols[a] == x)
  }

  /** The introducing extents, each once, with their labels; the edges are the covers. */
  ghost predicate IsAocPoset(ctx: Context, ext: seq<set<nat>>, children: seq<set<nat>>, rext: seq<set<nat>>,
                             rint: seq<set<nat>>) {
    && Distinct(ext) && (forall x :: x in ext <==> Introduces(ctx, x))
    && Diagram.Covers(ext, children)
    && |rext| == |rint| == |ext| && forall c | 0 <= c < |ext| :: IsLabelled(ctx, ext[c], rext[c], rint[c])
  }

  /** Every object and every attribute labels exactly one concept, and no concept is without a
      label. */
  ghost predicate LabelledOnce(ctx: Context, rext: seq<set<nat>>, rint: seq<set<nat>>) {
    && |rext| == |rint|
    && (forall c | 0 <= c < |rext| :: rext[c] <= ctx.Objects() && rint[c] <= ctx.Attributes())
    && (forall o: nat | o < |ctx.rows| :: InSomeLabel(rext, o))
    && (forall a: nat | a < |ctx.cols| :: InSomeLabel(rint, a))
    && (forall c, d | 0 <= c < d < |rext| :: rext[c] !! rext[d] && rint[c] !! rint[d])
    && forall c | 0 <= c < |rext| :: rext[c] != {} || rint[c] != {}
  }

  ghost predicate InSomeLabel(labels: seq<set<nat>>, x: nat) {
    exists c :: 0 <= c < |labels| && x in labels[c]
  }

  lemma PosetIsLabelledOnce(ctx: Context, ext: seq<set<nat>>, children: seq<set<nat>>, rext: seq<set<nat>>,
                            rint: seq<set<nat>>)
    requires IsAocPoset(ctx, ext, children, rext, rint)
    ensures LabelledOnce(ctx, rext, rint)
  {
    hide Diagram.Covers, Context.Extent;
    forall c | 0 <= c < |ext| ensures rext[c] <= ctx.Objects() && rint[c] <= ctx.Attributes()
      && (rext[c] != {} || rint[c] != {}) {
      assert IsLabelled(ctx, ext[c], rext[c], rint[c]) && Introduces(ctx, ext[c]);
    }
    forall o: nat | o < |ctx.rows| ensures InSomeLabel(rext, o) {
      assert Introduces(ctx, ctx.Extent(ctx.rows[o]));
      var c :| 0 <= c < |ext| && ext[c] == ctx.Extent(ctx.rows[o]);
      assert IsLabelled(ctx, ext[c], rext[c], rint[c]);
    }
    forall a: nat | a < |ctx.cols| ensures InSomeLabel(rint, a) {
      assert Introduces(ctx, ctx.cols[a]);
      var c :| 0 <= c < |ext| && ext[c] == ctx.cols[a];
      assert IsLabelled(ctx, ext[c], rext[c], rint[c]);
    }
    forall c, d | 0 <= c < d < |rext| ensures rext[c] !! rext[d] && rint[c] !! rint[d] {
      assert IsLabelled(ctx, ext[c], rext[c], rint[c]) && IsLabelled(ctx, ext[d], rext[d], rint[d]);
    }
  }

  // ---- what the audit of the source checks ----

  /** Going down from u one meets exactly the concepts with smaller extents. */
  ghost predicate OrderIsInclusion(ext: seq<set<nat>>, children: seq<set<nat>>) {
    forall u: nat, v: nat | u < |ext| && v < |ext| :: (u != v && Reach(children, u, v)) <==> ext[v] < ext[u]
  }

  /** No edge u -> v is doubled by a longer path. */
  ghost predicate NoTransitiveEdge(children: seq<set<nat>>) {
    forall u: nat, v: nat, w: nat | u < |children| && v in children[u] && w in children[u]
      && w != v :: !Reach(children, w, v)
  }

  /** Edges that are covers satisfy both checks. */
  lemma CoversPassAudit(ext: seq<set<nat>>, children: seq<set<nat>>)
    requires Diagram.Covers(ext, children)
    ensures OrderIsInclusion(ext, children) && NoTransitiveEdge(children)
  {
    hide Reach;
    forall u: nat, v: nat | u < |ext| && v < |ext| ensures (u != v && Reach(children, u, v)) <==> ext[v] < ext[u] {
      if Reach(children, u, v) { ReachIsBelow(ext, children, u, v); }
      if ext[v] < ext[u] { BelowIsReached(ext, children, u, v); }
    }
    forall u: nat, v: nat, w: nat | u < |children| && v in children[u] && w in children[u] && w != v
      ensures !Reach(children, w, v)
    {
      if Reach(children, w, v) { ReachIsBelow(ext, children, w, v); }
    }
  }

  lemma ReachIsBelow(ext: seq<set<nat>>, children: seq<set<nat>>, u: nat, v: nat)
    requires Diagram.Covers(ext, children) && u < |ext| && Reach(children, u, v)
    ensures v < |ext| && (u == v || ext[v] < ext[u])
  {
    var below := set w: nat | w < |ext| && (w == u || ext[w] < ext[u]);
    forall x, y | x in below && y in children[x] ensures y in below {
      assert CoveredBy(ext, y, x);
    }
    assert Closed(children, below);
  }

  lemma {:induction false} BelowIsReached(ext: seq<set<nat>>, children: seq<set<nat>>, u: nat, v: nat)
    requires Diagram.Covers(ext, children) && u < |ext| && v < |ext| && ext[v] < ext[u]
    ensures Reach(children, u, v)
    decreases |ext[u]|
  {
    hide Reach;
    var c := CoverAbove(ext, v, u);
    ReachEdge(children, u, c);
    if ext[v] < ext[c] {
      SubsetCard(ext[c], ext[u]);
      BelowIsReached(ext, children, c, v);
      ReachTransitive(children, u, c, v);
    } else {
      SubsetCard(ext[v], ext[c]);
      SameCover(ext, children, u, c, v);
    }
  }

  lemma SameCover(ext: seq<set<nat>>, children: seq<set<nat>>, u: nat, c: nat, v: nat)
    requires Diagram.Covers(ext, children) && u < |ext| && c < |ext| && v < |ext| && CoveredBy(ext, c, u)
      && ext[v] == ext[c]
    ensures Reach(children, u, v)
  {
    assert CoveredBy(ext, v, u);
    ReachEdge(children, u, v);
  }

  /** Conversely, edges that pass both checks are the covers. */
  lemma AuditMeansCovers(ext: seq<set<nat>>, children: seq<set<nat>>)
    requires |children| == |ext| && WellFormed(children) && Distinct(ext)
    requires OrderIsInclusion(ext, children) && NoTransitiveEdge(children)
    requires forall u | 0 <= u < |children| :: u !in children[u]
    ensures Diagram.Covers(ext, children)
  {
    forall c: nat, p: nat | c < |ext| && p < |ext| ensures c in children[p] <==> CoveredBy(ext, c, p) {
      if c in children[p] {
        EdgeIsCover(ext, children, c, p);
      }
      if CoveredBy(ext, c, p) {
        FirstStepDown(ext, children, c, p);
      }
    }
  }

  lemma FirstStepDown(ext: seq<set<nat>>, children: seq<set<nat>>, c: nat, p: nat)
    requires |children| == |ext| && WellFormed(children) && OrderIsInclusion(ext, children)
    requires c < |ext| && p < |ext| && CoveredBy(ext, c, p)
    ensures c in children[p]
  {
    if c !in children[p] {
      var w := StepTowards(children, p, c);
      ReachEdge(children, p, w);
      hide Reach;
      NothingBetween(ext, c, w, p);
    }
  }

  lemma NothingBetween(ext: seq<set<nat>>, c: nat, w: nat, p: nat)
    requires c < |ext| && w < |ext| && p < |ext| && CoveredBy(ext, c, p)
    ensures !(ext[c] < ext[w] && ext[w] < ext[p])
  {}

  lemma EdgeIsCover(ext: seq<set<nat>>, children: seq<set<nat>>, c: nat, p: nat)
    requires |children| == |ext| && WellFormed(children) && OrderIsInclusion(ext, children)
      && NoTransitiveEdge(children)
    requires c < |ext| && p < |ext| && c in children[p] && c != p
    ensures CoveredBy(ext, c, p)
  {
    ReachEdge(children, p, c);
    hide Reach;
    forall k | 0 <= k < |ext| ensures !(ext[c] < ext[k] < ext[p]) {
      if ext[c] < ext[k] < ext[p] {
        ThroughSuccessor(ext, children, p, k, c);
      }
    }
  }

  /** An edge over a vertex in between is transitive. */
  lemma ThroughSuccessor(ext: seq<set<nat>>, children: seq<set<nat>>, p: nat, k: nat, c: nat)
    requires |children| == |ext| && WellFormed(children) && OrderIsInclusion(ext, children)
    requires c < |ext| && k < |ext| && p < |ext| && c in children[p] && ext[c] < ext[k] && ext[k] < ext[p]
    ensures !NoTransitiveEdge(children)
  {
    hide Reach;
    assert Reach(children, k, c) && Reach(children, p, k);
    if k !in children[p] {
      var w := StepTowards(children, p, k);
      ReachTransitive(children, w, k, c);
      assert ext[k] < ext[w];
    }
  }

  /** The AOC-poset is determined by the context, up to the numbers of the concepts: builders
      that meet IsAocPoset agree on concepts, labels and edges. */
  lemma PosetsAgree(ctx: Context, ext: seq<set<nat>>, children: seq<set<nat>>, rext: seq<set<nat>>, rint: seq<set<nat>>,
                    ext': seq<set<nat>>, children': seq<set<nat>>, rext': seq<set<nat>>, rint': seq<set<nat>>,
                    c: nat, d: nat, c': nat, d': nat)
    requires IsAocPoset(ctx, ext, children, rext, rint) && IsAocPoset(ctx, ext', children', rext', rint')
    requires c < |ext| && d < |ext| && c' < |ext'| && d' < |ext'| && ext[c] == ext'[c'] && ext[d] == ext'[d']
    ensures |ext| == |ext'| && rext[c] == rext'[c'] && rint[c] == rint'[c']
    ensures d in children[c] <==> d' in children'[c']
  {
    hide Introduces;
    assert rext[c] == rext'[c'] && rint[c] == rint'[c'] by {
      assert IsLabelled(ctx, ext[c], rext[c], rint[c]) && IsLabelled(ctx, ext'[c'], rext'[c'], rint'[c']);
    }
    hide IsLabelled;
    SameSize(ext, ext');
    SameCovers(ext, ext', c, d, c', d');
    SameCovers(ext', ext, c', d', c, d);
  }

  lemma SameCovers(ext: seq<set<nat>>, ext': seq<set<nat>>, c: nat, d: nat, c': nat, d': nat)
    requires forall x :: x in ext <==> x in ext'
    requires c < |ext| && d < |ext| && c' < |ext'| && d' < |ext'| && ext[c] == ext'[c'] && ext[d] == ext'[d']
    ensures CoveredBy(ext, d, c) ==> CoveredBy(ext', d', c')
  {
    if CoveredBy(ext, d, c) {
      forall k | 0 <= k < |ext'| ensures !(ext'[d'] < ext'[k] < ext'[c']) {
        assert ext'[k] in ext;
        var j :| 0 <= j < |ext| && ext[j] == ext'[k];
      }
    }
  }

  lemma SameSize(s: seq<set<nat>>, t: seq<set<nat>>)
    requires Distinct(s) && Distinct(t) && forall x :: x in s <==> x in t
    ensures |s| == |t|
  {
    DistinctCard(s);
    DistinctCard(t);
    assert Members(s) == Members(t);
  }

  ghost function Members(s: seq<set<nat>>): set<set<nat>> {
    set x | x in s
  }

  lemma {:induction false} DistinctCard(s: seq<set<nat>>)
    requires Distinct(s)
    ensures |Members(s)| == |s|
  {
    if s != [] {
      var s', x := s[..|s| - 1], s[|s| - 1];
      DistinctCard(s');
      assert Members(s) == Members(s') + {x} by { assert s == s' + [x]; }
      assert x !in s';
    }
  }
}
