/** Implications between attributes with the same objects, and what one sweep through them
    reaches. */
module Equivalences {
  import opened FormalContext
  import opened Implications
  import opened Sweeps
  import opened Clarification

  function Pair(rep: nat, a: nat, ext: set<nat>): seq<Implication> {
    [Implication({a}, {rep}, ext), Implication({rep}, {a}, ext)]
  }

  /** For each further member of the class below n, in order: it implies the first one, and
      the other way round. */
  function OfClass(ctx: Context, cls: set<nat>, rep: nat, n: nat): seq<Implication>
    requires n <= |ctx.cols|
  {
    if n == 0 then []
    else OfClass(ctx, cls, rep, n - 1) + (if n - 1 in cls && n - 1 != rep then Pair(rep, n - 1,
        ctx.cols[n - 1]) else [])
  }

  function OfClasses(ctx: Context, classes: seq<set<nat>>, reps: seq<nat>, k: nat): seq<Implication>
    requires k <= |classes| == |reps|
  {
    if k == 0 then [] else OfClasses(ctx, classes, reps, k - 1) + OfClass(ctx, classes[k - 1], reps[k - 1], |ctx.cols|)
  }

  /** Some member of the class up to a is in x. */
  ghost predicate Touched(cls: set<nat>, x: set<nat>, a: nat) {
    exists b :: b in cls && b in x && b <= a
  }

  /** What a sweep adds to x: the members after the first one that is in x, and the first
      member of the class. */
  ghost function Filled(cls: set<nat>, rep: nat, x: set<nat>, n: nat): set<nat> {
    set a | a in cls && a < n && (Touched(cls, x, a) || (a == rep && n > 0 && Touched(cls, x, n - 1)))
  }

  lemma {:induction false} SweepClass(ctx: Context, cls: set<nat>, rep: nat, x: set<nat>, n: nat)
    requires rep < n <= |ctx.cols| && rep in cls && forall a | a in cls :: rep <= a
    ensures Sweep(OfClass(ctx, cls, rep, n), x) == x + Filled(cls, rep, x, n)
  {
    hide Filled, Sweep;
    var a := n - 1;
    var l := OfClass(ctx, cls, rep, a);
    if rep < a {
      SweepClass(ctx, cls, rep, x, a);
      FilledStep(cls, rep, x, a);
      SweepPair(l, rep, a, ctx.cols[a], x);
      assert l + [] == l;
    } else {
      NoneBefore(ctx, cls, rep, a);
      FilledFirst(cls, rep, x);
      SweepNothing(x);
    }
  }

  lemma SweepNothing(x: set<nat>)
    ensures Sweep([], x) == x
  {}

  lemma FilledFirst(cls: set<nat>, rep: nat, x: set<nat>)
    requires rep in cls && forall a | a in cls :: rep <= a
    ensures x + Filled(cls, rep, x, rep + 1) == x
  {}

  lemma SweepPair(l: seq<Implication>, rep: nat, a: nat, ext: set<nat>, x: set<nat>)
    ensures var r := Sweep(l, x);
      Sweep(l + Pair(rep, a, ext), x) == r + (if a in r || rep in r then {rep, a} else {})
  {
    var p := Pair(rep, a, ext);
    var r := Sweep(l, x);
    SweepConcat(l, p, x);
    assert p[..1] == [p[0]] && p[..1][..0] == [];
    assert Sweep(p[..1], r) == if a in r then r + {rep} else r;
  }

  lemma NoneBefore(ctx: Context, cls: set<nat>, rep: nat, n: nat)
    requires n <= rep && n <= |ctx.cols| && forall a | a in cls :: rep <= a
    ensures OfClass(ctx, cls, rep, n) == []
  {}

  lemma FilledStep(cls: set<nat>, rep: nat, x: set<nat>, a: nat)
    requires rep < a && rep in cls && forall b | b in cls :: rep <= b
    ensures var r := x + Filled(cls, rep, x, a);
      x + Filled(cls, rep, x, a + 1) == r + (if a in cls && (a in r || rep in r) then {rep, a} else {})
  {
  }

  /** What a sweep through the equivalences of the first k classes adds. */
  ghost function FilledAll(classes: seq<set<nat>>, reps: seq<nat>, x: set<nat>, k: nat, n: nat): set<nat>
    requires k <= |classes| == |reps|
  {
    if k == 0 then {} else FilledAll(classes, reps, x, k - 1, n) + Filled(classes[k - 1], reps[k - 1], x, n)
  }

  lemma {:induction false} FilledAllIs(classes: seq<set<nat>>, reps: seq<nat>, x: set<nat>, k: nat, n: nat)
    requires k <= |classes| == |reps|
    ensures forall a ::
        a in FilledAll(classes, reps, x, k, n) <==> exists c :: 0 <= c < k && a in Filled(classes[c], reps[c], x, n)
  {
    if k > 0 { FilledAllIs(classes, reps, x, k - 1, n); }
  }

  lemma ClassesApart(ctx: Context, classes: seq<set<nat>>, reps: seq<nat>, c: nat, d: nat, a: nat)
    requires IsClassesOf(ctx, classes, reps) && c < |classes| && d < |classes| && a in classes[c] && a in classes[d]
    ensures c == d
  {
    assert IsRep(ctx, reps[c]) && IsRep(ctx, reps[d]);
  }

  lemma SameFilled(cls: set<nat>, rep: nat, x: set<nat>, y: set<nat>, n: nat)
    requires forall b | b in cls :: b in x <==> b in y
    ensures Filled(cls, rep, x, n) == Filled(cls, rep, y, n)
  {
    forall a ensures Touched(cls, x, a) <==> Touched(cls, y, a) {}
  }

  lemma {:induction false} SweepClasses(ctx: Context, classes: seq<set<nat>>, reps: seq<nat>, x: set<nat>, k: nat)
    requires IsClassesOf(ctx, classes, reps) && k <= |classes| == |reps|
    ensures Sweep(OfClasses(ctx, classes, reps, k), x) == x + FilledAll(classes, reps, x, k, |ctx.cols|)
  {
    hide IsClassesOf, Filled, Sweep, OfClass;
    if k == 0 {
      SweepNothing(x);
    } else {
      var n := |ctx.cols|;
      var cls, rep := classes[k - 1], reps[k - 1];
      var y := x + FilledAll(classes, reps, x, k - 1, n);
      SweepClasses(ctx, classes, reps, x, k - 1);
      SweepConcat(OfClasses(ctx, classes, reps, k - 1), OfClass(ctx, cls, rep, n), x);
      forall b | b in cls && b in y ensures b in x {
        if b in FilledAll(classes, reps, x, k - 1, n) {
          FilledAllIs(classes, reps, x, k - 1, n);
          var c :| 0 <= c < k - 1 && b in Filled(classes[c], reps[c], x, n);
          FilledInClass(classes[c], reps[c], x, n);
          ClassesApart(ctx, classes, reps, c, k - 1, b);
        }
      }
      SameFilled(cls, rep, x, y, n);
      RepFirst(ctx, classes, reps, k - 1);
      SweepClass(ctx, cls, rep, y, n);
    }
  }

  lemma FilledInClass(cls: set<nat>, rep: nat, x: set<nat>, n: nat)
    ensures Filled(cls, rep, x, n) <= cls
  {}

  lemma RepFirst(ctx: Context, classes: seq<set<nat>>, reps: seq<nat>, c: nat)
    requires IsClassesOf(ctx, classes, reps) && c < |classes|
    ensures reps[c] < |ctx.cols| && reps[c] in classes[c] && classes[c] <= ctx.Attributes()
      && forall a | a in classes[c] :: reps[c] <= a
  {
    assert IsRep(ctx, reps[c]);
  }

  /** After the sweep: a first member is there when any member was, another one when it or
      one before it was. */
  lemma AfterEquivalences(ctx: Context, classes: seq<set<nat>>, reps: seq<nat>, x: set<nat>, c: nat, a: nat)
    requires IsClassesOf(ctx, classes, reps) && c < |classes| && a in classes[c]
    ensures var y := Sweep(OfClasses(ctx, classes, reps, |classes|), x);
      a in y <==> exists b :: b in classes[c] && b in x && (b <= a || a == reps[c])
  {
    var n := |ctx.cols|;
    SweepClasses(ctx, classes, reps, x, |classes|);
    FilledAllIs(classes, reps, x, |classes|, n);
    RepFirst(ctx, classes, reps, c);
    forall d | 0 <= d < |classes| && a in Filled(classes[d], reps[d], x, n) ensures d == c {
      ClassesApart(ctx, classes, reps, c, d, a);
    }
    FilledMeans(classes[c], reps[c], x, n, a);
  }

  lemma FilledMeans(cls: set<nat>, rep: nat, x: set<nat>, n: nat, a: nat)
    requires a in cls && forall b | b in cls :: b < n
    ensures a in x || a in Filled(cls, rep, x, n) <==> exists b :: b in cls && b in x && (b <= a || a == rep)
  {
    if a in x { assert a in cls && a in x && a <= a; }
    if b :| b in cls && b in x && (b <= a || a == rep) {
      assert Touched(cls, x, if b <= a then a else n - 1);
    }
  }
}
