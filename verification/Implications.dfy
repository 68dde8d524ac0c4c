/** Attribute implications, pseudo-intents and the Duquenne-Guigues basis. */
module Implications {
  import opened FiniteSets
  import opened FormalContext

  /** An implication premise -> closure.  In the Duquenne-Guigues basis `closure` includes the
      premise and the exported conclusion is closure - premise; in the D-basis it is the
      conclusion.  `support` is the extent of the premise. */
  datatype Implication = Implication(premise: set<nat>, closure: set<nat>, support: set<nat>)

  // ---- closure under a list of implications ----

  ghost predicate Respects(l: seq<Implication>, x: set<nat>) {
    forall i | 0 <= i < |l| :: l[i].premise <= x ==> l[i].closure <= x
  }

  /** d is the least superset of b that respects l. */
  ghost predicate IsLeast(l: seq<Implication>, b: set<nat>, d: set<nat>) {
    && b <= d
    && Respects(l, d)
    && (forall x: set<nat> | b <= x && Respects(l, x) :: d <= x)
  }

  ghost predicate Within(l: seq<Implication>, universe: set<nat>) {
    forall i | 0 <= i < |l| :: l[i].premise <= universe && l[i].closure <= universe
  }

  ghost predicate InAllAbove(l: seq<Implication>, b: set<nat>, a: nat) {
    forall x: set<nat> | b <= x && Respects(l, x) :: a in x
  }

  /** The closure of b under l: what all supersets of b that respect l have in common. */
  ghost function Saturate(l: seq<Implication>, universe: set<nat>, b: set<nat>): set<nat>
    requires Within(l, universe) && b <= universe
  {
    set a | a in universe && InAllAbove(l, b, a)
  }

  lemma SaturateIsLeast(l: seq<Implication>, universe: set<nat>, b: set<nat>)
    requires Within(l, universe) && b <= universe
    ensures IsLeast(l, b, Saturate(l, universe, b)) && Saturate(l, universe, b) <= universe
  {
    var d := Saturate(l, universe, b);
    assert Respects(l, universe);
    forall i | 0 <= i < |l| && l[i].premise <= d ensures l[i].closure <= d {
      forall x: set<nat> | b <= x && Respects(l, x) ensures l[i].closure <= x {
        assert d <= x;
      }
    }
    forall x: set<nat> | b <= x && Respects(l, x) ensures d <= x {}
  }

  lemma LeastUnique(l: seq<Implication>, b: set<nat>, d: set<nat>, e: set<nat>)
    requires IsLeast(l, b, d) && IsLeast(l, b, e)
    ensures d == e
  {}

  /** Longer lists and larger sets have larger closures. */
  lemma SaturateMonotone(l: seq<Implication>, l': seq<Implication>, universe: set<nat>, b: set<nat>, c: set<nat>)
    requires Within(l', universe) && l <= l' && b <= c <= universe
    ensures Within(l, universe)
    ensures Saturate(l, universe, b) <= Saturate(l', universe, c)
  {
    assert forall i | 0 <= i < |l| :: l[i] == l'[i];
    var d := Saturate(l', universe, c);
    SaturateIsLeast(l', universe, c);
    SaturateIsLeast(l, universe, b);
    assert Respects(l, d);
  }

  // ---- pseudo-intents ----

  /** p is pseudo-closed: not an intent, and it contains the closure of every
      pseudo-intent strictly below it. */
  ghost predicate Pseudo(ctx: Context, p: set<nat>)
    decreases p
  {
    && p <= ctx.Attributes()
    && ctx.Closure(p) != p
    && forall q: set<nat> | q < p && Pseudo(ctx, q) :: ctx.Closure(q) <= p
  }

  /** x contains the closure of every pseudo-intent strictly below it.  These sets are
      exactly the intents and the pseudo-intents, see StableIsIntentOrPseudo. */
  ghost predicate Stable(ctx: Context, x: set<nat>) {
    && x <= ctx.Attributes()
    && forall q: set<nat> | q < x && Pseudo(ctx, q) :: ctx.Closure(q) <= x
  }

  lemma StableIsIntentOrPseudo(ctx: Context, x: set<nat>)
    requires x <= ctx.Attributes()
    ensures Stable(ctx, x) <==> (ctx.Closure(x) == x || Pseudo(ctx, x))
  {
    if ctx.Closure(x) == x {
      forall q: set<nat> | q < x && Pseudo(ctx, q) ensures ctx.Closure(q) <= x {
        ClosureMonotone(ctx, q, x);
      }
    }
  }

  /** Intents and pseudo-intents together are closed under intersection. */
  lemma StableIntersection(ctx: Context, x: set<nat>, y: set<nat>)
    requires Stable(ctx, x) && Stable(ctx, y)
    ensures Stable(ctx, x * y)
  {
    forall q: set<nat> | q < x * y && Pseudo(ctx, q) ensures ctx.Closure(q) <= x * y {
      assert q < x && q < y;
    }
  }

  // ---- bases ----

  /** Every implication of l holds in the context. */
  ghost predicate Sound(ctx: Context, l: seq<Implication>) {
    && Within(l, ctx.Attributes())
    && forall i | 0 <= i < |l| :: l[i].closure <= ctx.Closure(l[i].premise)
  }

  /** Every implication that holds in the context follows from l: whatever respects l
      is an intent. */
  ghost predicate Complete(ctx: Context, l: seq<Implication>) {
    forall x: set<nat> | x <= ctx.Attributes() && Respects(l, x) :: ctx.Closure(x) == x
  }

  ghost predicate Emitted(l: seq<Implication>, p: set<nat>) {
    exists i :: 0 <= i < |l| && l[i].premise == p
  }

  ghost predicate DistinctPremises(l: seq<Implication>) {
    forall i, j | 0 <= i < j < |l| :: l[i].premise != l[j].premise
  }

  /** No two implications have both the premise and the conclusion in common. */
  ghost predicate NoTwins(l: seq<Implication>) {
    forall i, j | 0 <= i < j < |l| :: !Twins(l[i], l[j])
  }

  ghost predicate Twins(f: Implication, g: Implication) {
    f.premise == g.premise && f.closure == g.closure
  }

  lemma TwinsApart(l: seq<Implication>, m: seq<Implication>)
    requires NoTwins(l) && NoTwins(m) && forall i, j | 0 <= i < |l| && 0 <= j < |m| :: !Twins(l[i], m[j])
    ensures NoTwins(l + m)
  {}

  ghost predicate OnlyPseudo(ctx: Context, l: seq<Implication>) {
    forall i | 0 <= i < |l| ::
      && Pseudo(ctx, l[i].premise)
      && l[i].closure == ctx.Closure(l[i].premise)
      && l[i].support == ctx.Extent(l[i].premise)
  }

  /** l holds exactly one implication p -> p'' for every pseudo-intent p and nothing else. */
  ghost predicate IsCanonicalBasis(ctx: Context, l: seq<Implication>) {
    && OnlyPseudo(ctx, l)
    && DistinctPremises(l)
    && forall p: set<nat> | Pseudo(ctx, p) :: Emitted(l, p)
  }

  lemma OnlyPseudoWithin(ctx: Context, l: seq<Implication>)
    requires ctx.Valid() && OnlyPseudo(ctx, l)
    ensures Within(l, ctx.Attributes()) && Sound(ctx, l)
  {
    forall i | 0 <= i < |l|
      ensures l[i].premise <= ctx.Attributes() && l[i].closure <= ctx.Attributes()
    {
      ClosureExtensive(ctx, l[i].premise);
    }
  }

  /** The canonical basis is sound and complete. */
  lemma CanonicalSoundComplete(ctx: Context, l: seq<Implication>)
    requires ctx.Valid() && IsCanonicalBasis(ctx, l)
    ensures Sound(ctx, l) && Complete(ctx, l)
  {
    OnlyPseudoWithin(ctx, l);
    forall x: set<nat> | x <= ctx.Attributes() && Respects(l, x) ensures ctx.Closure(x) == x {
      forall q: set<nat> | q < x && Pseudo(ctx, q) ensures ctx.Closure(q) <= x {
        assert Emitted(l, q);
      }
      if ctx.Closure(x) != x {
        assert Pseudo(ctx, x) && Emitted(l, x);
        ClosureExtensive(ctx, x);
        assert false;
      }
    }
  }

  /** No implication of the canonical basis can be dropped. */
  lemma CanonicalNonRedundant(ctx: Context, l: seq<Implication>, k: nat)
    requires ctx.Valid() && IsCanonicalBasis(ctx, l) && k < |l|
    ensures !Complete(ctx, l[..k] + l[k + 1..])
  {
    var rest := l[..k] + l[k + 1..];
    var p := l[k].premise;
    forall i | 0 <= i < |rest| && rest[i].premise <= p ensures rest[i].closure <= p {
      var j := if i < k then i else i + 1;
      assert rest[i] == l[j] && l[j].premise != p;
    }
    assert Respects(rest, p);
  }

  /** Inside a pseudo-intent p, a premise whose closure leaves p has the closure of p. */
  lemma PseudoIsQuasiClosed(ctx: Context, p: set<nat>, a: set<nat>)
    requires ctx.Valid() && Pseudo(ctx, p) && a <= p && !(ctx.Closure(a) <= p)
    ensures ctx.Closure(a) == ctx.Closure(p)
  {
    var ca := ctx.Closure(a);
    ClosureExtensive(ctx, a);
    ClosureIdempotent(ctx, a);
    ClosureMonotone(ctx, a, p);
    StableIsIntentOrPseudo(ctx, ca);
    var x := p * ca;
    StableIntersection(ctx, p, ca);
    StableIsIntentOrPseudo(ctx, x);
    ClosureMonotone(ctx, a, x);
    ClosureMonotone(ctx, x, ca);
    if x != p {
      assert false;
    }
    ClosureMonotone(ctx, p, ca);
  }

  /** One implication cannot be violated by two pseudo-intents. */
  lemma ViolatedOnce(ctx: Context, imp: Implication, p: set<nat>, q: set<nat>)
    requires ctx.Valid() && Pseudo(ctx, p) && Pseudo(ctx, q)
    requires imp.closure <= ctx.Closure(imp.premise)
    requires imp.premise <= p && !(imp.closure <= p)
    requires imp.premise <= q && !(imp.closure <= q)
    ensures p == q
  {
    var a := imp.premise;
    PseudoIsQuasiClosed(ctx, p, a);
    PseudoIsQuasiClosed(ctx, q, a);
    var x := p * q;
    assert Stable(ctx, p) && Stable(ctx, q);
    StableIntersection(ctx, p, q);
    StableIsIntentOrPseudo(ctx, x);
    ClosureMonotone(ctx, a, x);
    ClosureMonotone(ctx, x, p);
    assert Pseudo(ctx, x);
    assert !(x < p) && !(x < q);
  }

  ghost predicate Violates(imp: Implication, p: set<nat>) {
    imp.premise <= p && !(imp.closure <= p)
  }

  lemma PseudoViolates(ctx: Context, l: seq<Implication>, p: set<nat>)
    requires Pseudo(ctx, p) && Complete(ctx, l)
    ensures !Respects(l, p)
  {}

  ghost function ViolatedIn(l: seq<Implication>, p: set<nat>): (j: nat)
    requires !Respects(l, p)
    ensures j < |l| && Violates(l[j], p)
  {
    var j :| 0 <= j < |l| && l[j].premise <= p && !(l[j].closure <= p); j
  }

  lemma EachViolated(ctx: Context, l: seq<Implication>, other: seq<Implication>)
    requires OnlyPseudo(ctx, l) && Complete(ctx, other)
    ensures forall i | 0 <= i < |l| :: !Respects(other, l[i].premise)
  {
    forall i | 0 <= i < |l| ensures !Respects(other, l[i].premise) {
      PseudoViolates(ctx, other, l[i].premise);
    }
  }

  lemma ViolatedApart(ctx: Context, l: seq<Implication>, other: seq<Implication>, f: seq<nat>, i: nat, k: nat)
    requires ctx.Valid() && OnlyPseudo(ctx, l) && DistinctPremises(l) && Sound(ctx, other)
    requires i < k < |l| == |f| && f[i] < |other| && f[k] < |other|
    requires Violates(other[f[i]], l[i].premise) && Violates(other[f[k]], l[k].premise)
    ensures f[i] != f[k]
  {
    if f[i] == f[k] {
      ViolatedOnce(ctx, other[f[i]], l[i].premise, l[k].premise);
    }
  }

  /** The canonical basis is a smallest one: every sound and complete list of
      implications is at least as long. */
  lemma CanonicalMinimum(ctx: Context, l: seq<Implication>, other: seq<Implication>)
    requires ctx.Valid() && IsCanonicalBasis(ctx, l)
    requires Sound(ctx, other) && Complete(ctx, other)
    ensures |l| <= |other|
  {
    EachViolated(ctx, l, other);
    hide Pseudo, Respects, Complete, Violates;
    var f := seq(|l|, i requires 0 <= i < |l| && !Respects(other, l[i].premise) =>
      ViolatedIn(other, l[i].premise));
    forall i, k | 0 <= i < k < |f| ensures f[i] != f[k] {
      ViolatedApart(ctx, l, other, f, i, k);
    }
    Pigeonhole(f, |other|);
  }
}
