/** A context of four objects and four attributes whose reduced basis needs a second sweep. */
module DirectnessFails {
  import opened FormalContext
  import opened Implications
  import opened Generators
  import opened MinimalCovers
  import opened Sweeps
  import opened DBasis
  import opened EBasis
  import opened OneSweep
  import DBasisResult

  function Example(): Context {
    Context([{0}, {1}, {0, 3}, {1, 2, 3}], [{0, 2}, {1, 3}, {3}, {2, 3}])
  }

  lemma ExampleIsValid()
    ensures Example().Valid() && Clarified(Example())
  {
    var ctx := Example();
    assert 0 in ctx.cols[0] && 0 !in ctx.cols[1] && 0 !in ctx.cols[2] && 0 !in ctx.cols[3];
    assert 1 in ctx.cols[1] && 1 !in ctx.cols[2] && 1 !in ctx.cols[3];
    assert 2 in ctx.cols[3] && 2 !in ctx.cols[2];
  }

  /** Whatever generates attribute a lies within none of the objects without a. */
  lemma NotWithin(a: nat, s: set<nat>, o: nat)
    requires a < 4 && o < 4 && o !in Example().cols[a] && IsMinimalCover(Example(), a, s)
    ensures !(s <= Example().rows[o])
  {
    ExampleIsValid();
    assert Generates(Example(), a, s);
    assert s <= Example().rows[o] ==> o in Example().Extent(s);
  }

  lemma CoverAllowed(a: nat, s: set<nat>)
    requires a < 4 && IsMinimalCover(Example(), a, s)
    ensures s <= {0, 1, 2, 3} && a !in s && forall u | u in s :: u !in BinaryPremises(Example(), a)
  {}

  lemma TwoIsPremise()
    ensures 2 in BinaryPremises(Example(), 1) && 2 in BinaryPremises(Example(), 3)
  {
    var ctx := Example();
    assert 0 in ctx.Objects() && 0 !in ctx.cols[2];
    assert ctx.cols[2] == {3} && ctx.cols[1] == {1, 3} && ctx.cols[3] == {2, 3};
  }

  /** Attributes 0 and 1 have no cover, those of 3 lie in {0, 1} and those of 2 in {0, 1, 3}. */
  lemma WhereCoversLie(a: nat, s: set<nat>)
    requires a < 4 && IsMinimalCover(Example(), a, s)
    ensures a >= 2 && (a == 3 ==> s <= {0, 1}) && (a == 2 ==> s <= {0, 1, 3})
  {
    CoverAllowed(a, s);
    TwoIsPremise();
    if a == 0 { NotWithin(a, s, 3); }
    if a == 1 { NotWithin(a, s, 2); }
  }

  /** The covers do not depend on each other in a cycle. */
  lemma NoCycle()
    ensures NoCycles(CoverDependencies(Example()))
  {
    var ctx := Example();
    var g := CoverDependencies(ctx);
    var rank := (a: nat) => if a == 2 then 2 else if a == 3 then 1 else 0;
    assert |g| == 4;
    forall t, y | 0 <= t < |g| && y in g[t] ensures rank(y) < rank(t) {
      Depends(t, y);
    }
    FallingHasNoCycles(g, rank);
  }

  lemma Depends(t: nat, y: nat)
    requires t < 4 && NeededFor(Example(), t, y)
    ensures t >= 2 && (t == 3 ==> y < 2) && (t == 2 ==> y != 2 && y < 4)
  {
    var h: set<nat> :| IsMinimalCover(Example(), t, h) && |h| > 1 && y in h;
    WhereCoversLie(t, h);
  }

  lemma Closures()
    ensures Example().Closure({0, 1}) == {0, 1, 2, 3} && Example().Closure({1, 3}) == {1, 2, 3}
  {
    var ctx := Example();
    assert ctx.Extent({0, 1}) == {};
    assert ctx.Extent({1, 3}) == {3};
  }

  lemma BinaryAlone()
    ensures BinaryClosure(Example(), {0, 1}) == {0, 1}
    ensures Span(Example(), {0, 1}) == {0, 1} && Span(Example(), {1, 3}) == {1, 3}
  {
    var ctx := Example();
    assert ctx.cols[0] == {0, 2} && ctx.cols[1] == {1, 3} && ctx.cols[2] == {3} && ctx.cols[3] == {2, 3};
    assert 0 in ctx.cols[0] && 1 in ctx.cols[1] && 2 in ctx.cols[3] && 3 in ctx.cols[3] && 3 in ctx.Objects()
      && 0 in ctx.Objects() && 1 in ctx.Objects();
    assert Reaches(ctx, {0, 1}, 0) && Reaches(ctx, {0, 1}, 1) && Reaches(ctx, {1, 3}, 1) && Reaches(ctx, {1, 3}, 3);
  }

  /** Two attributes that generate the target, while objects without it have either. */
  lemma PairIsMinimal(ctx: Context, target: nat, premises: set<nat>, a: nat, b: nat, o: nat, p: nat)
    requires ctx.Valid() && target < |ctx.cols| && {a, b} <= Allowed(ctx, target, premises)
      && Generates(ctx, target, {a, b})
    requires o < |ctx.rows| && o !in ctx.cols[target] && a in ctx.rows[o]
    requires p < |ctx.rows| && p !in ctx.cols[target] && b in ctx.rows[p]
    ensures IsMinimalGenerator(ctx, target, premises, {a, b})
  {
    forall r: set<nat> | r < {a, b} ensures !Generates(ctx, target, r) {
      var x := if a in r then o else p;
      assert r <= ctx.rows[x] by { SmallerThanPair(r, a, b); }
      assert x in ctx.Extent(r);
    }
  }

  lemma SmallerThanPair(r: set<nat>, a: nat, b: nat)
    requires r < {a, b}
    ensures r <= {a} || r <= {b}
  {}

  /** A generator that reaches nothing but itself is refined by no other one. */
  lemma AloneIsCover(ctx: Context, target: nat, g: set<nat>)
    requires target < |ctx.cols| && g in GeneratorsOf(ctx, target) && g <= ctx.Attributes() && Span(ctx, g) == g
    ensures IsMinimalCover(ctx, target, g)
  {
    forall h | h in GeneratorsOf(ctx, target) ensures !Refines(ctx, h, g) {
      if h <= g { NoneContained(ctx, target, BinaryPremises(ctx, target), g, h); }
    }
  }

  lemma Facts()
    ensures |Example().cols| == 4 && |Example().rows| == 4 && Example().Attributes() == {0, 1, 2, 3}
    ensures Example().Extent({0, 1}) == {} && Example().Extent({1, 3}) == {3} && Example().cols[2] == {3}
    ensures Example().rows[0] == {0} && Example().rows[1] == {1} && Example().rows[2] == {0, 3}
    ensures 0 !in BinaryPremises(Example(), 2) && 1 !in BinaryPremises(Example(), 2)
      && 3 !in BinaryPremises(Example(), 2)
  {
    var ctx := Example();
    assert 0 in ctx.cols[0] && 1 in ctx.cols[1] && 2 in ctx.cols[3];
  }

  lemma PairIsCover(ctx: Context, target: nat, a: nat, b: nat, o: nat, p: nat)
    requires ctx.Valid() && target < |ctx.cols| && {a, b} <= Allowed(ctx, target, BinaryPremises(ctx, target))
    requires ctx.Extent({a, b}) <= ctx.cols[target] && {a, b} <= ctx.Attributes() && Span(ctx, {a, b}) == {a, b}
    requires o < |ctx.rows| && o !in ctx.cols[target] && a in ctx.rows[o]
    requires p < |ctx.rows| && p !in ctx.cols[target] && b in ctx.rows[p]
    ensures IsMinimalCover(ctx, target, {a, b})
  {
    PairIsMinimal(ctx, target, BinaryPremises(ctx, target), a, b, o, p);
    AloneIsCover(ctx, target, {a, b});
  }

  lemma TheCovers()
    ensures IsMinimalCover(Example(), 2, {0, 1}) && IsMinimalCover(Example(), 2, {1, 3})
  {
    Facts();
    ExampleIsValid();
    BinaryAlone();
    hide Example, IsMinimalCover, Span, BinaryPremises, Context.Valid, Context.Extent, Clarified, BinaryClosure;
    assert {0, 1} <= Allowed(Example(), 2, BinaryPremises(Example(), 2));
    assert {1, 3} <= Allowed(Example(), 2, BinaryPremises(Example(), 2));
    PairIsCover(Example(), 2, 0, 1, 0, 1);
    PairIsCover(Example(), 2, 1, 3, 1, 2);
  }

  lemma OnlyThePair(s: set<nat>)
    requires IsMinimalCover(Example(), 2, s) && s <= {0, 1}
    ensures s == {0, 1}
  {
    Facts();
    NotWithin(2, s, 0);
    NotWithin(2, s, 1);
  }

  lemma ReadyFromPair(h: set<nat>)
    ensures {0, 1} <= Example().Attributes() && (Ready(Example(), {0, 1}, h, 2) ==> h <= {0, 1})
  {
    hide Example, BinaryClosure, Ready, BinaryPremises, Span, Context.Extent;
    Facts();
    BinaryAlone();
    ReadyMeans(Example(), {0, 1}, h, 2);
  }

  lemma ReadyMeans(ctx: Context, g: set<nat>, h: set<nat>, target: nat)
    requires g <= ctx.Attributes() && BinaryClosure(ctx, g) == g && forall y: nat | y < target :: y in g
    ensures Ready(ctx, g, h, target) ==> h <= g
  {}

  /** {1, 3} has a smaller closure than {0, 1}, so {0, 1} is not sharp, and no other cover lies
      within it. */
  lemma NoneReady()
    ensures {0, 1} <= Example().Attributes() && !IsSharpCover(Example(), 2, {0, 1})
      && !SharpIsReady(Example(), 2, {0, 1})
  {
    Facts();
    TheCovers();
    Closures();
    assert Example().Closure({1, 3}) < Example().Closure({0, 1});
    hide Example, IsMinimalCover, Ready;
    forall h | IsSharpCover(Example(), 2, h) ensures !Ready(Example(), {0, 1}, h, 2) {
      ReadyFromPair(h);
      if h <= {0, 1} { OnlyThePair(h); }
    }
  }

  /** The condition does not hold of this context. */
  lemma OneSweepIsNotEnough()
    ensures !OneSweepIsEnough(Example())
  {
    hide *;
    ExampleIsValid();
    NoCycle();
    NoneReady();
    Facts();
    TheCovers();
    PairHasTwo();
    MissingCover(Example(), 2, {0, 1});
  }

  lemma PairHasTwo()
    ensures |{0, 1}| > 1
  {
    assert {0, 1} - {0} == {1};
  }

  /** The basis computed for it misses the closure of some set in one sweep. */
  method BasisNeedingTwoSweeps() returns (basis: seq<Implication>)
    ensures Sound(Example(), basis) && Complete(Example(), basis) && !OrderedDirect(Example(), basis)
  {
    ExampleIsValid();
    OneSweepIsNotEnough();
    hide Example, OneSweepIsEnough, Sound, Complete, OrderedDirect;
    var clar, classes, reps;
    ghost var binary, kept;
    basis, clar, classes, reps, binary, kept := DBasisResult.ComputeDBasis(Example());
  }
}
