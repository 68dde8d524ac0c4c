/** When one sweep through the D-basis is enough: a condition on the context alone. */
module OneSweep {
  import opened FiniteSets
  import opened FormalContext
  import opened Implications
  import opened Graphs
  import opened Reachability
  import opened MinimalCovers
  import opened Sweeps
  import opened DBasis
  import opened EBasis
  import opened Tarjan
  import opened Clarification
  import Derivation

  // ---- the condition ----

  /** The first attributes of the columns, among those below n. */
  function FirstOnes(ctx: Context, n: nat): (r: seq<nat>)
    requires n <= |ctx.cols|
    ensures forall c | 0 <= c < |r| :: r[c] < n
  {
    if n == 0 then []
    else FirstOnes(ctx, n - 1) + (if ctx.cols[n - 1] in ctx.cols[..n - 1] then [] else [n - 1])
  }

  /** The context with one attribute for all that have the same column. */
  function Clarify(ctx: Context): Context {
    var firsts := FirstOnes(ctx, |ctx.cols|);
    Context(seq(|ctx.rows|, o => set c: nat | c < |firsts| && firsts[c] < |ctx.cols| && o in ctx.cols[firsts[c]]),
            seq(|firsts|, c requires 0 <= c < |firsts| && firsts[c] < |ctx.cols| => ctx.cols[firsts[c]]))
  }

  /** y belongs to a minimal cover of t. */
  ghost predicate NeededFor(ctx: Context, t: nat, y: nat)
    requires t < |ctx.cols|
  {
    exists g: set<nat> :: IsMinimalCover(ctx, t, g) && |g| > 1 && y in g
  }

  ghost function CoverDependencies(ctx: Context): (g: Graph)
    ensures |g| == |ctx.cols|
    ensures forall t: nat, y: nat | t < |g| :: y in g[t] <==> y < |g| && NeededFor(ctx, t, y)
  {
    seq(|ctx.cols|, t requires 0 <= t < |ctx.cols| => set y: nat | y < |ctx.cols| && NeededFor(ctx, t, y))
  }

  ghost predicate NoCycles(g: Graph) {
    forall c | IsComponent(g, c) :: |c| <= 1
  }

  /** Some sharp cover of the target is ready when g is all there is. */
  ghost predicate SharpIsReady(ctx: Context, target: nat, g: set<nat>)
    requires target < |ctx.cols| && g <= ctx.Attributes()
  {
    exists h :: IsSharpCover(ctx, target, h) && Ready(ctx, g, h, target)
  }

  /** Every minimal cover that is not sharp has a sharp one to take its place. */
  ghost predicate SharpInTime(ctx: Context) {
    forall target: nat, g: set<nat> |
      target < |ctx.cols| && IsMinimalCover(ctx, target, g) && |g| > 1 && !IsSharpCover(ctx, target, g) ::
      SharpIsReady(ctx, target, g)
  }

  /** An object with all attributes but these. */
  ghost predicate SparesOnly(ctx: Context, cls: set<nat>) {
    exists o :: 0 <= o < |ctx.rows| && ctx.rows[o] == ctx.Attributes() - cls
  }

  /** Attributes share their column at most in pairs, and some object has all other attributes
      but not the pair. */
  ghost predicate PairsAreFree(ctx: Context) {
    forall a: nat | a < |ctx.cols| && |ClassOf(ctx, a)| > 1 ::
      |ClassOf(ctx, a)| == 2 && SparesOnly(ctx, ClassOf(ctx, a))
  }

  /** Either the minimal covers of the clarified context depend on each other in a cycle, and
      none is dropped, or those dropped are replaced in time; and the pairs are free. */
  ghost predicate OneSweepIsEnough(ctx: Context) {
    && (NoCycles(CoverDependencies(Clarify(ctx))) ==> SharpInTime(Clarify(ctx)))
    && PairsAreFree(ctx)
  }

  // ---- the clarified context is determined ----

  lemma {:induction false} FirstOnesAre(ctx: Context, n: nat)
    requires n <= |ctx.cols|
    ensures forall a: nat :: a in FirstOnes(ctx, n) <==> a < n && IsRep(ctx, a)
    ensures forall c, d | 0 <= c < d < |FirstOnes(ctx, n)| :: FirstOnes(ctx, n)[c] < FirstOnes(ctx, n)[d]
  {
    if n > 0 {
      FirstOnesAre(ctx, n - 1);
      assert ctx.cols[n - 1] in ctx.cols[..n - 1] <==> !IsRep(ctx, n - 1) by {
        if b :| 0 <= b < n - 1 && ctx.cols[b] == ctx.cols[n - 1] { assert ctx.cols[..n - 1][b] == ctx.cols[n - 1]; }
      }
    }
  }

  lemma RepsAreFirst(ctx: Context, classes: seq<set<nat>>, reps: seq<nat>)
    requires IsClassesOf(ctx, classes, reps) && forall a: nat | a < |ctx.cols| :: InSomeClass(classes, a)
    ensures reps == FirstOnes(ctx, |ctx.cols|)
  {
    var firsts := FirstOnes(ctx, |ctx.cols|);
    FirstOnesAre(ctx, |ctx.cols|);
    forall a: nat ensures a in reps <==> a < |ctx.cols| && IsRep(ctx, a) {
      if a in reps {
        var c :| 0 <= c < |reps| && reps[c] == a;
        assert IsRep(ctx, reps[c]);
      }
      if a < |ctx.cols| && IsRep(ctx, a) {
        assert InSomeClass(classes, a);
        var c :| 0 <= c < |classes| && a in classes[c];
        assert IsRep(ctx, reps[c]) && ctx.cols[a] == ctx.cols[reps[c]];
      }
    }
    Derivation.SortedUnique(ToSet(reps), reps, firsts);
  }

  lemma ClarifiedIs(ctx: Context, clar: Context, classes: seq<set<nat>>, reps: seq<nat>)
    requires IsClarification(ctx, clar, classes, reps)
    ensures clar == Clarify(ctx)
  {
    RepsAreFirst(ctx, classes, reps);
    var expected := Clarify(ctx);
    forall o | 0 <= o < |ctx.rows| ensures clar.rows[o] == expected.rows[o] {
      forall c: nat ensures c in clar.rows[o] <==> c in expected.rows[o] {
        assert c in clar.rows[o] ==> c < |clar.cols|;
      }
    }
  }

  // ---- cycles ----

  /** Numbers that fall along every edge leave no room for cycles. */
  lemma FallingHasNoCycles(g: Graph, rank: nat -> nat)
    requires Graphs.WellFormed(g) && forall u, v | 0 <= u < |g| && v in g[u] :: rank(v) < rank(u)
    ensures NoCycles(g)
  {
    forall c | IsComponent(g, c) ensures |c| <= 1 {
      var u :| u in c;
      forall v | v in c ensures v == u {
        assert Connected(g, u, v);
        if v != u {
          FallsAlong(g, rank, u, v);
          FallsAlong(g, rank, v, u);
        }
      }
      assert c == {u};
    }
  }

  lemma FallsAlong(g: Graph, rank: nat -> nat, u: nat, v: nat)
    requires Graphs.WellFormed(g) && forall u, v | 0 <= u < |g| && v in g[u] :: rank(v) < rank(u)
    requires u < |g| && Reach(g, u, v)
    ensures v == u || rank(v) < rank(u)
  {
    var s := set w: nat | w < |g| && (w == u || rank(w) < rank(u));
    assert Closed(g, s);
  }

  /** Without cycles among the covers of a clarified context they can be ranked. */
  lemma RankedByReach(ctx: Context) returns (rank: nat -> nat)
    requires NoCycles(CoverDependencies(ctx))
    ensures Ranked(ctx, rank)
  {
    var g := CoverDependencies(ctx);
    rank := (c: nat) => |Reachable(g, c)|;
    forall t: nat, h: set<nat>, y: nat | t < |ctx.cols| && IsMinimalCover(ctx, t, h) && |h| > 1 && y in h
      ensures rank(y) < rank(t)
    {
      CoverInUniverse(ctx, t, h);
      assert NeededFor(ctx, t, y) && y in g[t];
      NotOwnCover(ctx, t, h);
      EdgeDescends(g, t, y);
    }
  }

  lemma NotOwnCover(ctx: Context, t: nat, h: set<nat>)
    requires t < |ctx.cols| && IsMinimalCover(ctx, t, h)
    ensures t !in h
  {}

  lemma RankedHasNoCycles(ctx: Context, rank: nat -> nat)
    requires Ranked(ctx, rank)
    ensures NoCycles(CoverDependencies(ctx))
  {
    var g := CoverDependencies(ctx);
    forall t, y | 0 <= t < |g| && y in g[t] ensures rank(y) < rank(t) {
      assert NeededFor(ctx, t, y);
      var h: set<nat> :| IsMinimalCover(ctx, t, h) && |h| > 1 && y in h;
    }
    FallingHasNoCycles(g, rank);
  }

  // ---- what is kept ----

  /** With exactly the sharp covers kept, the condition speaks of sharp covers. */
  lemma KeptAreSharp(ctx: Context, kept: seq<Implication>)
    requires forall i | 0 <= i < |kept| :: IsRule(ctx, kept[i])
    requires forall t: nat, g: set<nat> | t < |ctx.cols| :: HasRule(kept, g, {t}) <==> IsSharpCover(ctx, t, g)
    ensures InTime(ctx, kept) <==> SharpInTime(ctx)
  {
    hide IsMinimalCover, IsRule;
    forall t: nat, g: set<nat> | t < |ctx.cols| && g <= ctx.Attributes()
      ensures ReplacedInTime(ctx, kept, g, t) <==> SharpIsReady(ctx, t, g)
    {
      KeptIsSharp(ctx, kept, g, t);
    }
    forall t: nat, g: set<nat> | t < |ctx.cols| && IsMinimalCover(ctx, t, g) ensures g <= ctx.Attributes() {
      CoverInUniverse(ctx, t, g);
    }
    hide IsSharpCover, HasRule, ReplacedInTime, SharpIsReady;
  }

  lemma KeptIsSharp(ctx: Context, kept: seq<Implication>, g: set<nat>, t: nat)
    requires t < |ctx.cols| && g <= ctx.Attributes()
    requires forall h: set<nat> :: HasRule(kept, h, {t}) <==> IsSharpCover(ctx, t, h)
    ensures ReplacedInTime(ctx, kept, g, t) <==> SharpIsReady(ctx, t, g)
  {
    hide IsSharpCover, Ready;
    if ReplacedInTime(ctx, kept, g, t) {
      var i :| 0 <= i < |kept| && HasTarget(kept[i], t) && Ready(ctx, g, kept[i].premise, t);
      assert HasRule(kept, kept[i].premise, {t});
    }
    if SharpIsReady(ctx, t, g) {
      var h :| IsSharpCover(ctx, t, h) && Ready(ctx, g, h, t);
      assert HasRule(kept, h, {t});
      var i :| 0 <= i < |kept| && kept[i].premise == h && kept[i].closure == {t};
      assert HasTarget(kept[i], t);
    }
  }

  // ---- the pairs ----

  /** In a sound and complete list whose implications conclude nothing of their premises,
      some implication concludes c unless an object has everything but c. */
  lemma ConcludedIff(ctx: Context, l: seq<Implication>, c: nat)
    requires ctx.Valid() && c < |ctx.cols| && Sound(ctx, l) && Complete(ctx, l)
    requires forall i | 0 <= i < |l| :: l[i].closure !! l[i].premise
    ensures (forall i | 0 <= i < |l| :: c !in l[i].closure) <==> SparesOnly(ctx, {c})
  {
    var x := ctx.Attributes() - {c};
    ClosureExtensive(ctx, x);
    SparedIff(ctx, c);
    if (forall i | 0 <= i < |l| :: c !in l[i].closure) {
      assert Respects(l, x);
      assert ctx.Closure(x) == x;
    }
    if i :| 0 <= i < |l| && c in l[i].closure {
      ClosureMonotone(ctx, l[i].premise, x);
    }
  }

  lemma SparedIff(ctx: Context, c: nat)
    requires ctx.Valid() && c < |ctx.cols|
    ensures c in ctx.Closure(ctx.Attributes() - {c}) <==> !SparesOnly(ctx, {c})
  {
    var x := ctx.Attributes() - {c};
    if o :| 0 <= o < |ctx.rows| && ctx.rows[o] == x {
      assert o in ctx.Extent(x) && o !in ctx.cols[c];
    }
    if c !in ctx.Closure(x) {
      var o :| o in ctx.Extent(x) && o !in ctx.cols[c];
      assert ctx.rows[o] == x;
    }
  }

  /** An object spares one class of the clarified context when it spares its attributes. */
  lemma SparesClass(ctx: Context, clar: Context, classes: seq<set<nat>>, reps: seq<nat>, c: nat)
    requires ctx.Valid() && IsClarification(ctx, clar, classes, reps) && c < |reps|
    ensures SparesOnly(clar, {c}) <==> SparesOnly(ctx, classes[c])
  {
    forall o: nat | o < |ctx.rows|
      ensures clar.rows[o] == clar.Attributes() - {c} <==> ctx.rows[o] == ctx.Attributes() - classes[c] {
      SparesAt(ctx, clar, classes, reps, c, o);
    }
  }

  lemma SparesAt(ctx: Context, clar: Context, classes: seq<set<nat>>, reps: seq<nat>, c: nat, o: nat)
    requires ctx.Valid() && IsClarification(ctx, clar, classes, reps) && c < |reps| && o < |ctx.rows|
    ensures o < |clar.rows|
    ensures clar.rows[o] == clar.Attributes() - {c} <==> ctx.rows[o] == ctx.Attributes() - classes[c]
  {
    forall d | d in clar.rows[o] ensures d < |reps| {}
    hide IsClarification;
    if clar.rows[o] == clar.Attributes() - {c} {
      forall a: nat | a < |ctx.cols| ensures a in ctx.rows[o] <==> a !in classes[c] {
        var d := ClassWith(ctx, clar, classes, reps, a);
        SameInClass(ctx, clar, classes, reps, c, d, a, o);
      }
    }
    if ctx.rows[o] == ctx.Attributes() - classes[c] {
      forall d: nat | d < |reps| ensures d in clar.rows[o] <==> d != c {
        FirstInClass(ctx, clar, classes, reps, d);
        SameInClass(ctx, clar, classes, reps, c, d, reps[d], o);
      }
    }
  }

  lemma ClassWith(ctx: Context, clar: Context, classes: seq<set<nat>>, reps: seq<nat>, a: nat) returns (d: nat)
    requires IsClarification(ctx, clar, classes, reps) && a < |ctx.cols|
    ensures d < |classes| == |reps| && a in classes[d]
  {
    assert InSomeClass(classes, a);
    d :| 0 <= d < |classes| && a in classes[d];
  }

  lemma FirstInClass(ctx: Context, clar: Context, classes: seq<set<nat>>, reps: seq<nat>, d: nat)
    requires IsClarification(ctx, clar, classes, reps) && d < |reps|
    ensures d < |classes| && reps[d] < |ctx.cols| && reps[d] in classes[d]
  {
    assert IsRep(ctx, reps[d]);
  }

  lemma SameInClass(ctx: Context, clar: Context, classes: seq<set<nat>>, reps: seq<nat>, c: nat, d: nat, a: nat, o: nat)
    requires ctx.Valid() && IsClarification(ctx, clar, classes, reps) && c < |reps| && d < |reps| && o < |ctx.rows|
      && a in classes[d]
    ensures o < |clar.rows| && (a in ctx.rows[o] <==> d in clar.rows[o]) && (a in classes[c] <==> d == c)
  {
    assert IsRep(ctx, reps[c]) && IsRep(ctx, reps[d]);
    assert ctx.cols[a] == ctx.cols[reps[d]] == clar.cols[d];
    if a in classes[c] {
      assert ctx.cols[reps[c]] == ctx.cols[reps[d]];
    }
  }

  /** The pairs are free when every class of two is spared and no class is larger. */
  lemma PairsByClass(ctx: Context, clar: Context, classes: seq<set<nat>>, reps: seq<nat>)
    requires IsClarification(ctx, clar, classes, reps)
    ensures PairsAreFree(ctx) <==>
      forall c | 0 <= c < |classes| && |classes[c]| > 1 :: |classes[c]| == 2 && SparesOnly(ctx, classes[c])
  {
    forall a: nat | a < |ctx.cols| ensures exists c :: 0 <= c < |classes| && ClassOf(ctx, a) == classes[c] {
      assert InSomeClass(classes, a);
      var c :| 0 <= c < |classes| && a in classes[c];
      assert classes[c] == ClassOf(ctx, reps[c]) && ctx.cols[a] == ctx.cols[reps[c]];
      assert ClassOf(ctx, a) == classes[c];
    }
    forall c | 0 <= c < |classes| ensures reps[c] < |ctx.cols| && ClassOf(ctx, reps[c]) == classes[c] {
      assert IsRep(ctx, reps[c]);
    }
    hide ClassOf, SparesOnly, IsClarification;
  }

  // ---- clarified contexts ----

  lemma {:induction false} AllAreFirst(ctx: Context, n: nat)
    requires Clarified(ctx) && n <= |ctx.cols|
    ensures FirstOnes(ctx, n) == seq(n, i => i)
  {
    if n > 0 {
      AllAreFirst(ctx, n - 1);
      assert ctx.cols[n - 1] !in ctx.cols[..n - 1];
      assert seq(n, i => i) == seq(n - 1, i => i) + [n - 1];
    }
  }

  /** A context without equal columns stays as it is. */
  lemma ClarifiedAlready(ctx: Context)
    requires ctx.Valid() && Clarified(ctx)
    ensures Clarify(ctx) == ctx
  {
    var firsts := FirstOnes(ctx, |ctx.cols|);
    AllAreFirst(ctx, |ctx.cols|);
    assert |firsts| == |ctx.cols| && forall c | 0 <= c < |firsts| :: firsts[c] == c;
    var clar := Clarify(ctx);
    assert clar.cols == ctx.cols;
    forall o | 0 <= o < |ctx.rows| ensures clar.rows[o] == ctx.rows[o] {
      forall c: nat ensures c in clar.rows[o] <==> c in ctx.rows[o] {}
    }
  }

  /** A dropped cover without a replacement. */
  lemma MissingCover(ctx: Context, t: nat, g: set<nat>)
    requires ctx.Valid() && Clarified(ctx) && NoCycles(CoverDependencies(ctx))
    requires t < |ctx.cols| && g <= ctx.Attributes() && IsMinimalCover(ctx, t, g) && |g| > 1
    requires !IsSharpCover(ctx, t, g) && !SharpIsReady(ctx, t, g)
    ensures !OneSweepIsEnough(ctx)
  {
    ClarifiedAlready(ctx);
    hide IsMinimalCover, IsSharpCover, SharpIsReady, NoCycles, PairsAreFree;
  }
}
