/** The minimal generators of an attribute, and the filter that keeps those which no other
    one refines. */
module Generators {
  import opened FiniteSets
  import opened FormalContext
  import opened Transversals
  import Derivation
  import Sorting

  /** The attributes a generator of `target` may use. */
  function Allowed(ctx: Context, target: nat, binaryPremises: set<nat>): set<nat> {
    ctx.Attributes() - {target} - binaryPremises
  }

  /** Whatever has all of s has the target. */
  ghost predicate Generates(ctx: Context, target: nat, s: set<nat>)
    requires target < |ctx.cols|
  {
    ctx.Extent(s) <= ctx.cols[target]
  }

  ghost predicate IsMinimalGenerator(ctx: Context, target: nat, binaryPremises: set<nat>, s: set<nat>)
    requires target < |ctx.cols|
  {
    && s <= Allowed(ctx, target, binaryPremises) && Generates(ctx, target, s)
    && forall r: set<nat> | r < s :: !Generates(ctx, target, r)
  }

  /** Object o lacks the target and has every attribute of s: s does not imply the target. */
  lemma GeneratesHits(ctx: Context, target: nat, s: set<nat>)
    requires ctx.Valid() && target < |ctx.cols| && s <= ctx.Attributes()
    ensures Generates(ctx, target, s) <==>
      forall o: nat | o < |ctx.rows| && o !in ctx.cols[target] :: !(s <= ctx.rows[o])
  {
    if forall o: nat | o < |ctx.rows| && o !in ctx.cols[target] :: !(s <= ctx.rows[o]) {
      forall o | o in ctx.Extent(s) ensures o in ctx.cols[target] {}
    }
    if o: nat :| o < |ctx.rows| && o !in ctx.cols[target] && s <= ctx.rows[o] {
      assert o in ctx.Extent(s);
    }
  }

  /** The edges are the allowed attributes that the objects without the target lack. */
  ghost predicate IsHypergraph(ctx: Context, target: nat, allowed: set<nat>, edges: seq<Edge>)
    requires target < |ctx.cols|
  {
    && (forall o: nat | o < |ctx.rows| && o !in ctx.cols[target] :: HasEdge(edges, allowed - ctx.rows[o]))
    && (forall k | 0 <= k < |edges| :: IsEdge(ctx, target, allowed, edges[k], |ctx.rows|))
  }

  ghost predicate IsEdge(ctx: Context, target: nat, allowed: set<nat>, edge: Edge, n: nat)
    requires target < |ctx.cols| && n <= |ctx.rows|
  {
    exists o: nat :: o < n && o !in ctx.cols[target] && ToSet(edge) == allowed - ctx.rows[o]
  }

  ghost predicate HasEdge(edges: seq<Edge>, s: set<nat>) {
    exists k :: 0 <= k < |edges| && ToSet(edges[k]) == s
  }

  /** Generating the target is hitting every edge. */
  lemma TransversalGenerates(ctx: Context, target: nat, allowed: set<nat>, edges: seq<Edge>, s: set<nat>)
    requires ctx.Valid() && target < |ctx.cols| && allowed <= ctx.Attributes() && s <= allowed
    requires IsHypergraph(ctx, target, allowed, edges)
    ensures IsTransversal(edges, s) <==> Generates(ctx, target, s)
  {
    GeneratesHits(ctx, target, s);
    if IsTransversal(edges, s) {
      forall o: nat | o < |ctx.rows| && o !in ctx.cols[target] ensures !(s <= ctx.rows[o]) {
        assert HasEdge(edges, allowed - ctx.rows[o]);
        var k :| 0 <= k < |edges| && ToSet(edges[k]) == allowed - ctx.rows[o];
        assert Hits(s, edges[k]);
        var a :| a in edges[k] && a in s;
        assert a in ToSet(edges[k]);
      }
    }
    if Generates(ctx, target, s) {
      forall k | 0 <= k < |edges| ensures Hits(s, edges[k]) {
        var o: nat :| o < |ctx.rows| && o !in ctx.cols[target] && ToSet(edges[k]) == allowed - ctx.rows[o];
        var a :| a in s && a !in ctx.rows[o];
        assert a in ToSet(edges[k]);
      }
    }
  }

  lemma MinimalTransversalGenerates(ctx: Context, target: nat, binaryPremises: set<nat>, edges: seq<Edge>, s: set<nat>)
    requires ctx.Valid() && target < |ctx.cols|
    requires IsHypergraph(ctx, target, Allowed(ctx, target, binaryPremises), edges)
    ensures IsMinimalTransversal(edges, s) <==> IsMinimalGenerator(ctx, target, binaryPremises, s)
  {
    var allowed := Allowed(ctx, target, binaryPremises);
    if IsMinimalTransversal(edges, s) {
      MinimalIsIrredundant(edges, s);
      forall a | a in s ensures a in allowed {
        assert HasOwnEdge(edges, s, a);
        var k: nat :| k < |edges| && Private(edges, s, a, k);
        assert a in ToSet(edges[k]);
      }
    }
    if s <= allowed {
      TransversalGenerates(ctx, target, allowed, edges, s);
      forall r: set<nat> | r < s ensures IsTransversal(edges, r) <==> Generates(ctx, target, r) {
        TransversalGenerates(ctx, target, allowed, edges, r);
      }
    }
  }

  // ---- the pipeline for one target ----

  /** Some object lacks the target. */
  ghost predicate Missing(ctx: Context, target: nat)
    requires target < |ctx.cols|
  {
    exists o: nat :: o < |ctx.rows| && o !in ctx.cols[target]
  }

  /** One edge for each of the first n objects that lack the target. */
  ghost predicate EdgesUpTo(ctx: Context, target: nat, allowed: set<nat>, edges: seq<Edge>, n: nat)
    requires target < |ctx.cols| && n <= |ctx.rows|
  {
    && EdgesOk(edges, |ctx.cols|) && (forall k | 0 <= k < |edges| :: edges[k] != [])
    && |edges| == |Range(n) - ctx.cols[target]|
    && (forall o: nat | o < n && o !in ctx.cols[target] :: HasEdge(edges, allowed - ctx.rows[o]))
    && forall k | 0 <= k < |edges| :: IsEdge(ctx, target, allowed, edges[k], n)
  }

  lemma OneMoreObject(col: set<nat>, o: nat)
    ensures |Range(o + 1) - col| == |Range(o) - col| + (if o in col then 0 else 1)
  {
    assert Range(o + 1) - col == Range(o) - col + (if o in col then {} else {o});
  }

  lemma SkipObject(ctx: Context, target: nat, allowed: set<nat>, edges: seq<Edge>, o: nat)
    requires target < |ctx.cols| && o < |ctx.rows| && EdgesUpTo(ctx, target, allowed, edges, o) && o in ctx.cols[target]
    ensures EdgesUpTo(ctx, target, allowed, edges, o + 1)
  {
    OneMoreObject(ctx.cols[target], o);
    forall k | 0 <= k < |edges| ensures IsEdge(ctx, target, allowed, edges[k], o + 1) {
      assert IsEdge(ctx, target, allowed, edges[k], o);
    }
  }

  lemma AddEdge(ctx: Context, target: nat, allowed: set<nat>, edges: seq<Edge>, o: nat, edge: Edge)
    requires target < |ctx.cols| && o < |ctx.rows| && EdgesUpTo(ctx, target, allowed, edges, o)
    requires o !in ctx.cols[target] && edge != [] && ToSet(edge) == allowed - ctx.rows[o]
    requires EdgesOk(edges + [edge], |ctx.cols|)
    ensures EdgesUpTo(ctx, target, allowed, edges + [edge], o + 1)
  {
    OneMoreObject(ctx.cols[target], o);
    var edges' := edges + [edge];
    assert edges'[|edges|] == edge;
    hide EdgesOk, ToSet;
    forall k | 0 <= k < |edges'| ensures IsEdge(ctx, target, allowed, edges'[k], o + 1) {
      if k < |edges| { assert IsEdge(ctx, target, allowed, edges[k], o); }
    }
    forall p: nat | p < o + 1 && p !in ctx.cols[target] ensures HasEdge(edges', allowed - ctx.rows[p]) {
      if p < o {
        var k :| 0 <= k < |edges| && ToSet(edges[k]) == allowed - ctx.rows[p];
        assert edges'[k] == edges[k];
      }
    }
  }

  /** One edge per object without the target; an object that leaves no attribute to choose
      stops the construction. */
  method BuildHypergraph(ctx: Context, target: nat, binaryPremises: set<nat>) returns (edges: seq<Edge>, trivial: bool)
    requires ctx.Valid() && target < |ctx.cols|
    ensures EdgesOk(edges, |ctx.cols|)
    ensures !trivial ==> IsHypergraph(ctx, target, Allowed(ctx, target, binaryPremises), edges)
    ensures !trivial ==> |edges| == |ctx.Objects() - ctx.cols[target]| && forall k | 0 <= k < |edges| :: edges[k] != []
    ensures trivial ==> exists o: nat ::
      o < |ctx.rows| && o !in ctx.cols[target] && Allowed(ctx, target, binaryPremises) <= ctx.rows[o]
  {
    var allowed := Allowed(ctx, target, binaryPremises);
    edges := [];
    for o := 0 to |ctx.rows|
      invariant EdgesUpTo(ctx, target, allowed, edges, o)
    {
      hide IsEdge, HasEdge, Context.Valid;
      if o in ctx.cols[target] {
        SkipObject(ctx, target, allowed, edges, o);
        continue;
      }
      var edge := Derivation.Elements(ctx.Attributes() - ctx.rows[o] - {target} - binaryPremises, |ctx.cols|);
      assert forall x: nat :: x in allowed - ctx.rows[o] <==> x in edge;
      assert ToSet(edge) == allowed - ctx.rows[o];
      if |edge| == 0 {
        forall a | a in allowed ensures a in ctx.rows[o] {
          assert a !in allowed - ctx.rows[o];
        }
        return edges, true;
      }
      AddEdge(ctx, target, allowed, edges, o, edge);
      edges := edges + [edge];
    }
    trivial := false;
  }

  /** The order of the edges is irrelevant. */
  lemma HypergraphPermuted(ctx: Context, target: nat, allowed: set<nat>, edges: seq<Edge>, edges': seq<Edge>)
    requires target < |ctx.cols| && multiset(edges) == multiset(edges')
    requires IsHypergraph(ctx, target, allowed, edges) && EdgesOk(edges, |ctx.cols|)
    ensures IsHypergraph(ctx, target, allowed, edges') && EdgesOk(edges', |ctx.cols|)
  {
    forall e: Edge ensures e in edges <==> e in edges' {
      assert e in edges <==> e in multiset(edges);
      assert e in edges' <==> e in multiset(edges');
    }
    forall o: nat | o < |ctx.rows| && o !in ctx.cols[target] ensures HasEdge(edges', allowed - ctx.rows[o]) {
      assert HasEdge(edges, allowed - ctx.rows[o]);
      var k :| 0 <= k < |edges| && ToSet(edges[k]) == allowed - ctx.rows[o];
      assert edges[k] in edges';
      var k' :| 0 <= k' < |edges'| && edges'[k'] == edges[k];
    }
    forall k | 0 <= k < |edges'|
      ensures NoRepeats(edges'[k]) && (forall a | a in edges'[k] :: a < |ctx.cols|)
      ensures IsEdge(ctx, target, allowed, edges'[k], |ctx.rows|)
    {
      assert edges'[k] in edges;
    }
  }

  /** Everything allowed together does not imply the target: nothing smaller does. */
  lemma TrivialMeansNone(ctx: Context, target: nat, binaryPremises: set<nat>, o: nat, s: set<nat>)
    requires ctx.Valid() && target < |ctx.cols|
    requires o < |ctx.rows| && o !in ctx.cols[target] && Allowed(ctx, target, binaryPremises) <= ctx.rows[o]
    ensures !IsMinimalGenerator(ctx, target, binaryPremises, s)
  {
    if s <= Allowed(ctx, target, binaryPremises) {
      assert o in ctx.Extent(s);
    }
  }

  /** Provided some object lacks the target, exactly the minimal generators, each once;
      otherwise nothing. */
  method ComputeMinimalGenerators(ctx: Context, target: nat, binaryPremises: set<nat>) returns (result: seq<set<nat>>)
    requires ctx.Valid() && target < |ctx.cols|
    ensures Missing(ctx, target)
      ==> forall s: set<nat> :: s in result <==> IsMinimalGenerator(ctx, target, binaryPremises, s)
    ensures !Missing(ctx, target) ==> result == []
    ensures Distinct(result)
  {
    var edges, trivial := BuildHypergraph(ctx, target, binaryPremises);
    if trivial {
      ghost var o: nat :|
        o < |ctx.rows| && o !in ctx.cols[target] && Allowed(ctx, target, binaryPremises) <= ctx.rows[o];
      forall s: set<nat> ensures !IsMinimalGenerator(ctx, target, binaryPremises, s) {
        TrivialMeansNone(ctx, target, binaryPremises, o, s);
      }
      return [];
    }
    if |edges| == 0 {
      if Missing(ctx, target) {
        MissingHasEdge(ctx, target, Allowed(ctx, target, binaryPremises), edges);
      }
      return [];
    }
    var sorted := Sorting.QSort(edges, (x: Edge, y: Edge) => |x| <= |y|);
    HypergraphPermuted(ctx, target, Allowed(ctx, target, binaryPremises), edges, sorted);
    EdgeHasMissing(ctx, target, Allowed(ctx, target, binaryPremises), edges);
    var gs := new GenState(sorted, |ctx.cols|);
    gs.GenerateCovers();
    Sorting.SizeLexOrder();
    var found := Sorting.QSort(gs.results, Sorting.SizeLexLe);
    var distinct := Sorting.DropRepeats(found);
    result := AsSets(distinct);
    Sorting.SameMembers(gs.results, found);
    ListedOnce(sorted, gs.results, distinct, result);
    forall s: set<nat> ensures s in result <==> IsMinimalGenerator(ctx, target, binaryPremises, s) {
      MinimalTransversalGenerates(ctx, target, binaryPremises, sorted, s);
    }
  }

  method AsSets(lists: seq<seq<nat>>) returns (result: seq<set<nat>>)
    ensures |result| == |lists| && forall i | 0 <= i < |lists| :: result[i] == ToSet(lists[i])
  {
    result := [];
    for i := 0 to |lists|
      invariant |result| == i && forall j | 0 <= j < i :: result[j] == ToSet(lists[j])
    {
      result := result + [ToSet(lists[i])];
    }
  }

  lemma MissingHasEdge(ctx: Context, target: nat, allowed: set<nat>, edges: seq<Edge>)
    requires target < |ctx.cols| && IsHypergraph(ctx, target, allowed, edges) && Missing(ctx, target)
    ensures edges != []
  {
    var o: nat :| o < |ctx.rows| && o !in ctx.cols[target];
    assert HasEdge(edges, allowed - ctx.rows[o]);
  }

  lemma EdgeHasMissing(ctx: Context, target: nat, allowed: set<nat>, edges: seq<Edge>)
    requires target < |ctx.cols| && IsHypergraph(ctx, target, allowed, edges) && edges != []
    ensures Missing(ctx, target)
  {
    assert IsEdge(ctx, target, allowed, edges[0], |ctx.rows|);
  }

  /** Without repetitions among the lists there is none among the sets. */
  lemma ListedOnce(edges: seq<Edge>, results: seq<seq<nat>>, distinct: seq<seq<nat>>, sets: seq<set<nat>>)
    requires OnlyMinimal(edges, results) && (forall x :: x in distinct <==> x in results)
    requires forall i, j | 0 <= i < j < |distinct| :: distinct[i] != distinct[j]
    requires |sets| == |distinct| && forall i | 0 <= i < |sets| :: sets[i] == ToSet(distinct[i])
    ensures Distinct(sets) && forall t: set<nat> :: t in sets <==> Found(results, t)
  {
    forall i | 0 <= i < |distinct| ensures Derivation.Sorted(sets[i], distinct[i]) {
      assert distinct[i] in results;
    }
    forall i, j | 0 <= i < j < |sets| ensures sets[i] != sets[j] {
      if sets[i] == sets[j] { Derivation.SortedUnique(sets[i], distinct[i], distinct[j]); }
    }
    forall t: set<nat> ensures t in sets <==> Found(results, t) {
      if t in sets {
        var i :| 0 <= i < |sets| && sets[i] == t;
        assert distinct[i] in results;
        var k :| 0 <= k < |results| && results[k] == distinct[i];
      }
      if Found(results, t) {
        var k :| 0 <= k < |results| && Derivation.Sorted(t, results[k]);
        assert results[k] in distinct;
        var i :| 0 <= i < |distinct| && distinct[i] == results[k];
        assert t == ToSet(distinct[i]);
        assert sets[i] == t;
      }
    }
  }

  /** The list is the set of minimal generators exactly when some object lacks the target:
      an attribute of all objects has one, the empty set, and it is not listed. */
  lemma EmptyGenerator(ctx: Context, target: nat, binaryPremises: set<nat>, s: set<nat>)
    requires ctx.Valid() && target < |ctx.cols|
    ensures !Missing(ctx, target) ==> (IsMinimalGenerator(ctx, target, binaryPremises, s) <==> s == {})
    ensures Missing(ctx, target) ==> !IsMinimalGenerator(ctx, target, binaryPremises, {})
  {
    assert ctx.Extent({}) == ctx.Objects();
    if !Missing(ctx, target) {
      assert Generates(ctx, target, {});
      if s != {} { assert {} < s; }
    } else {
      var o: nat :| o < |ctx.rows| && o !in ctx.cols[target];
      assert o in ctx.Extent({});
    }
  }
}
