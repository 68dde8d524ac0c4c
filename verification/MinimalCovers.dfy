/** The filter that keeps the minimal generators which no other one refines. */
module MinimalCovers {
  import opened FiniteSets
  import opened FormalContext
  import opened Generators
  import Derivation

  /** No two attributes have the same objects. */
  ghost predicate Clarified(ctx: Context) {
    forall a, b | 0 <= a < b < |ctx.cols| :: ctx.cols[a] != ctx.cols[b]
  }

  /** All attributes that some single attribute of g implies. */
  ghost function Span(ctx: Context, g: set<nat>): set<nat>
    requires g <= ctx.Attributes()
  {
    set a: nat | a < |ctx.cols| && Reaches(ctx, g, a)
  }

  ghost predicate Reaches(ctx: Context, g: set<nat>, a: nat)
    requires g <= ctx.Attributes() && a < |ctx.cols|
  {
    exists b :: b in g && ctx.cols[b] <= ctx.cols[a]
  }

  lemma ClosureOfOne(ctx: Context, b: nat)
    requires ctx.Valid() && b < |ctx.cols|
    ensures forall a: nat :: a in ctx.Closure({b}) <==> a < |ctx.cols| && ctx.cols[b] <= ctx.cols[a]
  {
    assert ctx.Extent({b}) == ctx.cols[b];
  }

  /** h is at least as good a premise as g: binary implications take g to all of h. */
  ghost predicate Refines(ctx: Context, h: set<nat>, g: set<nat>)
    requires g <= ctx.Attributes()
  {
    h != g && |g| > 1 && h <= Span(ctx, g)
  }

  ghost predicate Refined(ctx: Context, gens: iset<set<nat>>, g: set<nat>)
    requires g <= ctx.Attributes()
  {
    exists h :: h in gens && Refines(ctx, h, g)
  }

  ghost function Members(covers: seq<set<nat>>): iset<set<nat>> {
    iset g | g in covers
  }

  ghost predicate InUniverse(ctx: Context, covers: seq<set<nat>>) {
    forall g | g in covers :: g <= ctx.Attributes()
  }

  ghost predicate AllGenerators(ctx: Context, target: nat, binaryPremises: set<nat>, gens: iset<set<nat>>)
    requires target < |ctx.cols|
  {
    forall g | g in gens :: IsMinimalGenerator(ctx, target, binaryPremises, g)
  }

  /** Distinct minimal generators of one target. */
  ghost predicate FilterInput(ctx: Context, target: nat, binaryPremises: set<nat>, covers: seq<set<nat>>) {
    && ctx.Valid() && Clarified(ctx) && target < |ctx.cols| && InUniverse(ctx, covers) && Distinct(covers)
    && AllGenerators(ctx, target, binaryPremises, Members(covers))
  }

  /** The closure of each single attribute. */
  ghost predicate AttributeClosures(ctx: Context, closures: seq<set<nat>>) {
    |closures| == |ctx.cols| && forall a | 0 <= a < |closures| :: closures[a] == ctx.Closure({a})
  }

  // ---- refinement is a strict order on minimal generators ----

  lemma DropImplied(ctx: Context, g: set<nat>, a: nat, b: nat)
    requires ctx.Valid() && g <= ctx.Attributes()
    requires a in g && b in g && a != b && ctx.cols[a] <= ctx.cols[b]
    ensures ctx.Extent(g - {b}) == ctx.Extent(g)
  {
    forall o | o in ctx.Extent(g - {b}) ensures o in ctx.Extent(g) {
      assert a in ctx.rows[o] && o in ctx.cols[a];
      assert g - {b} + {b} == g;
    }
  }

  lemma SmallerDoesNot(ctx: Context, target: nat, binaryPremises: set<nat>, g: set<nat>, r: set<nat>)
    requires target < |ctx.cols| && IsMinimalGenerator(ctx, target, binaryPremises, g)
    ensures r < g ==> !(ctx.Extent(r) <= ctx.cols[target])
  {
    if r < g { assert !Generates(ctx, target, r); }
  }

  /** In a minimal generator no attribute implies another. */
  lemma GeneratorIsAntichain(ctx: Context, target: nat, binaryPremises: set<nat>, g: set<nat>, a: nat, b: nat)
    requires ctx.Valid() && target < |ctx.cols| && IsMinimalGenerator(ctx, target, binaryPremises, g)
    requires a in g && b in g && ctx.cols[a] <= ctx.cols[b]
    ensures a == b
  {
    if a != b {
      SmallerDoesNot(ctx, target, binaryPremises, g, g - {b});
      DropImplied(ctx, g, a, b);
    }
  }

  /** Minimal generators that reach each other share their attributes. */
  lemma SharedAttribute(ctx: Context, target: nat, binaryPremises: set<nat>, g: set<nat>, h: set<nat>, a: nat)
    requires ctx.Valid() && Clarified(ctx) && target < |ctx.cols| && g <= ctx.Attributes() && h <= ctx.Attributes()
    requires IsMinimalGenerator(ctx, target, binaryPremises, g)
    requires h <= Span(ctx, g) && g <= Span(ctx, h) && a in g
    ensures a in h
  {
    hide IsMinimalGenerator, Clarified;
    var a', b := ThereAndBack(ctx, g, h, a);
    GeneratorIsAntichain(ctx, target, binaryPremises, g, a', a);
    SameColumn(ctx, a, b);
  }

  lemma SameColumn(ctx: Context, a: nat, b: nat)
    requires Clarified(ctx) && a < |ctx.cols| && b < |ctx.cols| && ctx.cols[a] == ctx.cols[b]
    ensures a == b
  {}

  lemma ThereAndBack(ctx: Context, g: set<nat>, h: set<nat>, a: nat) returns (a': nat, b: nat)
    requires g <= ctx.Attributes() && h <= ctx.Attributes() && h <= Span(ctx, g) && g <= Span(ctx, h) && a in g
    ensures a' in g && b in h && ctx.cols[a'] <= ctx.cols[b] <= ctx.cols[a]
  {
    assert a in Span(ctx, h);
    b :| b in h && ctx.cols[b] <= ctx.cols[a];
    assert b in Span(ctx, g);
    a' :| a' in g && ctx.cols[a'] <= ctx.cols[b];
  }

  lemma RefinesBothWays(ctx: Context, target: nat, binaryPremises: set<nat>, g: set<nat>, h: set<nat>)
    requires ctx.Valid() && Clarified(ctx) && target < |ctx.cols| && g <= ctx.Attributes() && h <= ctx.Attributes()
    requires IsMinimalGenerator(ctx, target, binaryPremises, g) && IsMinimalGenerator(ctx, target, binaryPremises, h)
    requires h <= Span(ctx, g) && g <= Span(ctx, h)
    ensures g == h
  {
    hide IsMinimalGenerator, Span;
    forall a | a in g ensures a in h {
      SharedAttribute(ctx, target, binaryPremises, g, h, a);
    }
    forall a | a in h ensures a in g {
      SharedAttribute(ctx, target, binaryPremises, h, g, a);
    }
  }

  lemma SpanTransitive(ctx: Context, g: set<nat>, h: set<nat>)
    requires g <= ctx.Attributes() && h <= ctx.Attributes()
    requires h <= Span(ctx, g)
    ensures Span(ctx, h) <= Span(ctx, g)
  {
    forall a | a in Span(ctx, h) ensures a in Span(ctx, g) {
      var b :| b in h && ctx.cols[b] <= ctx.cols[a];
      assert b in Span(ctx, g);
      var c :| c in g && ctx.cols[c] <= ctx.cols[b];
      assert ctx.cols[c] <= ctx.cols[a];
    }
  }

  lemma SpanExtensive(ctx: Context, g: set<nat>)
    requires g <= ctx.Attributes()
    ensures g <= Span(ctx, g)
  {
    forall a | a in g ensures Reaches(ctx, g, a) {}
  }

  /** Below every refined generator there is a refining one that nothing refines. */
  lemma {:induction false} UnrefinedBelow(ctx: Context, target: nat, binaryPremises: set<nat>, gens: iset<set<nat>>,
                                          g: set<nat>)
    returns (h: set<nat>)
    requires ctx.Valid() && Clarified(ctx) && target < |ctx.cols| && AllGenerators(ctx, target, binaryPremises, gens)
    requires g in gens && g <= ctx.Attributes() && Refined(ctx, gens, g)
    ensures h in gens && h <= ctx.Attributes() && Refines(ctx, h, g) && !Refined(ctx, gens, h)
    decreases |Span(ctx, g)|
  {
    hide IsMinimalGenerator, Span, Clarified;
    h :| h in gens && Refines(ctx, h, g);
    GeneratorInUniverse(ctx, target, binaryPremises, h);
    if Refined(ctx, gens, h) {
      StrictlyBelow(ctx, target, binaryPremises, g, h, h);
      var k := UnrefinedBelow(ctx, target, binaryPremises, gens, h);
      StrictlyBelow(ctx, target, binaryPremises, g, h, k);
      h := k;
    }
  }

  lemma GeneratorInUniverse(ctx: Context, target: nat, binaryPremises: set<nat>, g: set<nat>)
    requires target < |ctx.cols| && IsMinimalGenerator(ctx, target, binaryPremises, g)
    ensures g <= ctx.Attributes()
  {}

  /** Refinement is transitive, and it shrinks the span. */
  lemma StrictlyBelow(ctx: Context, target: nat, binaryPremises: set<nat>, g: set<nat>, h: set<nat>, k: set<nat>)
    requires ctx.Valid() && Clarified(ctx) && target < |ctx.cols| && g <= ctx.Attributes() && h <= ctx.Attributes()
    requires IsMinimalGenerator(ctx, target, binaryPremises, g) && IsMinimalGenerator(ctx, target, binaryPremises, h)
    requires Refines(ctx, h, g) && (k == h || Refines(ctx, k, h))
    ensures |Span(ctx, h)| < |Span(ctx, g)| && Refines(ctx, k, g)
  {
    hide IsMinimalGenerator, Clarified;
    SpanTransitive(ctx, g, h);
    SpanExtensive(ctx, g);
    SpanExtensive(ctx, h);
    hide Span;
    if Span(ctx, h) == Span(ctx, g) || k == g {
      RefinesBothWays(ctx, target, binaryPremises, g, h);
      assert false;
    }
    SubsetCard(Span(ctx, h), Span(ctx, g));
  }

  /** Distinct minimal generators never contain one another. */
  lemma NoneContained(ctx: Context, target: nat, binaryPremises: set<nat>, g: set<nat>, h: set<nat>)
    requires target < |ctx.cols| && h <= g
    requires IsMinimalGenerator(ctx, target, binaryPremises, g) && IsMinimalGenerator(ctx, target, binaryPremises, h)
    ensures h == g
  {
    SmallerDoesNot(ctx, target, binaryPremises, g, h);
  }

  // ---- the filter ----

  /** The closures of the attributes of g, taken together. */
  method UnionOfClosures(ctx: Context, g: set<nat>, closures: seq<set<nat>>) returns (u: set<nat>)
    requires ctx.Valid() && g <= ctx.Attributes() && AttributeClosures(ctx, closures)
    ensures u == Span(ctx, g)
  {
    u := {};
    for a := 0 to |ctx.cols|
      invariant u == Span(ctx, Derivation.Below(g, a))
    {
      ClosureOfOne(ctx, a);
      if a in g {
        assert Derivation.Below(g, a + 1) == Derivation.Below(g, a) + {a};
        u := u + closures[a];
      } else {
        assert Derivation.Below(g, a + 1) == Derivation.Below(g, a);
      }
    }
    assert Derivation.Below(g, |ctx.cols|) == g;
  }

  /** Generator i contains, or is refined by, one that is not marked. */
  ghost predicate Superseded(ctx: Context, covers: seq<set<nat>>, removed: seq<bool>, i: nat, n: nat)
    requires i < |covers| == |removed| && n <= |covers| && InUniverse(ctx, covers)
  {
    exists j :: 0 <= j < n && j != i && !removed[j] && (covers[j] <= covers[i] || Refines(ctx, covers[j], covers[i]))
  }

  /** Looks for a reason to drop generator i among those not yet dropped. */
  method FindReason(ctx: Context, covers: seq<set<nat>>, closures: seq<set<nat>>, removed: array<bool>, i: nat)
      returns (found: bool)
    requires ctx.Valid() && InUniverse(ctx, covers) && Distinct(covers) && i < |covers| == removed.Length
    requires AttributeClosures(ctx, closures)
    ensures found <==> Superseded(ctx, covers, removed[..], i, |covers|)
  {
    var g := covers[i];
    var union: set<nat>, ready := {}, false;
    for j := 0 to |covers|
      invariant ready ==> union == Span(ctx, g)
      invariant !Superseded(ctx, covers, removed[..], i, j)
    {
      if j == i || removed[j] {
        continue;
      }
      if covers[j] <= g {
        return true;
      }
      if |g| > 1 {
        if !ready {
          union := UnionOfClosures(ctx, g, closures);
          ready := true;
        }
        if covers[j] <= union {
          assert Refines(ctx, covers[j], g);
          return true;
        }
      }
    }
    found := false;
  }

  /** Keeps exactly the generators that no other one refines; each dropped one is refined by
      a kept one. */
  method ComputeMinimalCovers(ctx: Context, ghost target: nat, ghost binaryPremises: set<nat>,
                              covers: seq<set<nat>>, closures: seq<set<nat>>) returns (result: seq<set<nat>>)
    requires FilterInput(ctx, target, binaryPremises, covers) && AttributeClosures(ctx, closures)
    ensures forall g :: g in result <==> g in covers && !Refined(ctx, Members(covers), g)
    ensures forall g | g in covers && g !in result :: Refined(ctx, Members(result), g)
    ensures Distinct(result)
  {
    var n := |covers|;
    var removed := new bool[n](k => false);
    for i := 0 to n
      invariant forall k | 0 <= k < i :: removed[k] <==> Refined(ctx, Members(covers), covers[k])
      invariant forall k | i <= k < n :: !removed[k]
    {
      hide IsMinimalGenerator, Refines;
      var found := FindReason(ctx, covers, closures, removed, i);
      SupersededIsRefined(ctx, target, binaryPremises, covers, removed[..], i);
      if found {
        removed[i] := true;
      }
    }
    result := Kept(covers, removed[..]);
    forall g | g in covers && g !in result ensures Refined(ctx, Members(result), g) {
      var h := UnrefinedBelow(ctx, target, binaryPremises, Members(covers), g);
      assert h in result;
    }
  }

  /** Leaving out the generators dropped so far hides no reason: some undropped one
      refines as well. */
  lemma SupersededIsRefined(ctx: Context, target: nat, binaryPremises: set<nat>, covers: seq<set<nat>>,
                            removed: seq<bool>, i: nat)
    requires FilterInput(ctx, target, binaryPremises, covers) && i < |covers| == |removed|
    requires forall k | 0 <= k < |covers| && removed[k] :: Refined(ctx, Members(covers), covers[k])
    ensures Superseded(ctx, covers, removed, i, |covers|) <==> Refined(ctx, Members(covers), covers[i])
  {
    if Superseded(ctx, covers, removed, i, |covers|) {
      var j :| 0 <= j < |covers| && j != i && !removed[j]
        && (covers[j] <= covers[i] || Refines(ctx, covers[j], covers[i]));
      if covers[j] <= covers[i] {
        NoneContained(ctx, target, binaryPremises, covers[i], covers[j]);
      }
      assert covers[j] in covers;
    }
    if Refined(ctx, Members(covers), covers[i]) {
      var h := UnrefinedBelow(ctx, target, binaryPremises, Members(covers), covers[i]);
      var j :| 0 <= j < |covers| && covers[j] == h;
    }
  }

  ghost predicate IsKept(covers: seq<set<nat>>, removed: seq<bool>, g: set<nat>, n: nat)
    requires n <= |covers| == |removed|
  {
    exists k :: 0 <= k < n && covers[k] == g && !removed[k]
  }

  method Kept(covers: seq<set<nat>>, removed: seq<bool>) returns (result: seq<set<nat>>)
    requires |covers| == |removed| && Distinct(covers)
    ensures forall g :: g in result <==> IsKept(covers, removed, g, |covers|)
    ensures Distinct(result)
  {
    result := [];
    for j := 0 to |covers|
      invariant forall g :: g in result <==> IsKept(covers, removed, g, j)
      invariant Distinct(result)
    {
      forall g ensures IsKept(covers, removed, g, j + 1)
        <==> IsKept(covers, removed, g, j) || (g == covers[j] && !removed[j]) {}
      if !removed[j] {
        assert !IsKept(covers, removed, covers[j], j);
        result := result + [covers[j]];
      }
    }
  }

  /** The filter of the Java version looks at every other generator, dropped or not: it
      keeps the same ones. */
  method ComputeMinimalCoversOfAll(ctx: Context, ghost target: nat, ghost binaryPremises: set<nat>,
                                   covers: seq<set<nat>>, closures: seq<set<nat>>) returns (result: set<set<nat>>)
    requires FilterInput(ctx, target, binaryPremises, covers) && AttributeClosures(ctx, closures)
    ensures forall g :: g in result <==> g in covers && !Refined(ctx, Members(covers), g)
  {
    result := set g | g in covers;
    ghost var none := seq(|covers|, k => false);
    for i := 0 to |covers|
      invariant forall g :: g in result <==> g in covers && !(g in covers[..i] && Refined(ctx, Members(covers), g))
    {
      hide IsMinimalGenerator, Refines;
      var g := covers[i];
      ghost var before := result;
      var union: set<nat> := {};
      var ready := false;
      for j := 0 to |covers|
        invariant ready ==> union == Span(ctx, g)
        invariant result == if Superseded(ctx, covers, none, i, j) then before - {g} else before
      {
        if i != j {
          if covers[j] <= g {
            result := result - {g};
          } else {
            if !ready && |g| > 1 {
              union := UnionOfClosures(ctx, g, closures);
              ready := true;
            }
            if |g| > 1 && covers[j] <= union {
              result := result - {g};
            }
          }
        }
        SupersededStep(ctx, covers, none, i, j);
      }
      SupersededIsRefined(ctx, target, binaryPremises, covers, none, i);
      assert covers[..i + 1] == covers[..i] + [g];
      forall h ensures h in result <==> h in covers && !(h in covers[..i + 1] && Refined(ctx, Members(covers), h)) {
        assert h in covers[..i + 1] <==> h in covers[..i] || h == g;
        if h in covers[..i] { assert h != g; }
      }
    }
    assert covers[..|covers|] == covers;
  }

  lemma SupersededStep(ctx: Context, covers: seq<set<nat>>, removed: seq<bool>, i: nat, n: nat)
    requires i < |covers| == |removed| && n < |covers| && InUniverse(ctx, covers) && Distinct(covers)
    ensures Superseded(ctx, covers, removed, i, n + 1) <==>
      || Superseded(ctx, covers, removed, i, n)
      || (n != i && !removed[n] && (covers[n] <= covers[i] || (|covers[i]| > 1 && covers[n] <= Span(ctx, covers[i]))))
  {}
}
