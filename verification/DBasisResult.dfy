/** The D-basis of any context: equivalent attributes, then the basis of the clarified
    context written back with the first attribute of each class. */
module DBasisResult {
  import opened FiniteSets
  import opened FormalContext
  import opened Implications
  import opened Graphs
  import opened Reachability
  import opened MinimalCovers
  import opened Sweeps
  import opened DBasis
  import opened EBasis
  import opened Tarjan
  import opened Clarification
  import opened Equivalences
  import opened OneSweep
  import Derivation

  // ---- implications, back and forth ----

  /** f, written with representatives. */
  ghost function ConvRule(ctx: Context, reps: seq<nat>, f: Implication): Implication
    requires f.premise <= Range(|reps|) && f.closure <= Range(|reps|)
  {
    var p := Conv(reps, f.premise);
    Implication(p, Conv(reps, f.closure), ctx.Extent(p))
  }

  /** l is r, written with representatives. */
  ghost predicate IsConv(ctx: Context, reps: seq<nat>, r: seq<Implication>, l: seq<Implication>) {
    Within(r, Range(|reps|)) && |l| == |r| && forall i | 0 <= i < |r| :: l[i] == ConvRule(ctx, reps, r[i])
  }

  /** A sweep goes through the representatives as the original does through the classes. */
  lemma {:induction false} ConvSweep(ctx: Context, reps: seq<nat>, r: seq<Implication>, l: seq<Implication>,
                                     x: set<nat>)
    requires NoRepeats(reps) && IsConv(ctx, reps, r, l)
    ensures Sweep(r, Back(reps, x)) <= Range(|reps|)
    ensures Sweep(l, x) == x + Conv(reps, Sweep(r, Back(reps, x)))
  {
    hide Conv, Back;
    BackInRange(reps, x);
    if r == [] {
      ConvOfBack(reps, x);
    } else {
      var r0, l0, f := r[..|r| - 1], l[..|l| - 1], r[|r| - 1];
      ConvSweep(ctx, reps, r0, l0, x);
      var s, y := Sweep(r0, Back(reps, x)), Sweep(l0, x);
      SweepPrefix(r0, 0, Back(reps, x));
      BackOfConv(reps, s, x);
      BackOfConv(reps, f.premise, y);
      assert Back(reps, y) == s;
      ConvUnion(reps, s, f.closure);
    }
  }

  lemma BackInRange(reps: seq<nat>, x: set<nat>)
    ensures Back(reps, x) <= Range(|reps|)
  {}

  lemma ConvOfBack(reps: seq<nat>, x: set<nat>)
    ensures Conv(reps, Back(reps, x)) <= x
  {}

  lemma ConvUnion(reps: seq<nat>, s: set<nat>, t: set<nat>)
    requires s <= Range(|reps|) && t <= Range(|reps|)
    ensures Conv(reps, s + t) == Conv(reps, s) + Conv(reps, t)
  {}

  lemma ConvRespects(ctx: Context, reps: seq<nat>, r: seq<Implication>, l: seq<Implication>, x: set<nat>)
    requires NoRepeats(reps) && IsConv(ctx, reps, r, l)
    ensures Respects(l, x) <==> Respects(r, Back(reps, x))
  {
    hide Conv, Back;
    forall i | 0 <= i < |r|
      ensures (l[i].premise <= x <==> r[i].premise <= Back(reps, x))
        && (l[i].closure <= x <==> r[i].closure <= Back(reps, x))
    {
      BackOfConv(reps, r[i].premise, x);
      BackOfConv(reps, r[i].closure, x);
    }
  }

  // ---- equivalences ----

  /** All equivalences of a context. */
  ghost function Equivalents(ctx: Context, classes: seq<set<nat>>, reps: seq<nat>): seq<Implication>
    requires |classes| == |reps|
  {
    OfClasses(ctx, classes, reps, |classes|)
  }

  lemma WholeAfter(ctx: Context, classes: seq<set<nat>>, reps: seq<nat>, x: set<nat>)
    requires IsClassesOf(ctx, classes, reps) && |classes| == |reps| && Respects(Equivalents(ctx, classes, reps), x)
    ensures WholeClasses(classes, x)
  {
    SweepWithin(Equivalents(ctx, classes, reps), x, x);
    forall c | 0 <= c < |classes| ensures classes[c] <= x || classes[c] !! x {
      RepFirst(ctx, classes, reps, c);
      if b :| b in classes[c] && b in x {
        AfterEquivalences(ctx, classes, reps, x, c, reps[c]);
        assert reps[c] in x;
        forall a | a in classes[c] ensures a in x {
          AfterEquivalences(ctx, classes, reps, x, c, a);
        }
      }
    }
  }

  /** Whatever is complete for the classes is complete for the context. */
  lemma ConvComplete(ctx: Context, clar: Context, classes: seq<set<nat>>, reps: seq<nat>, r: seq<Implication>,
                     l: seq<Implication>)
    requires ctx.Valid() && IsClarification(ctx, clar, classes, reps) && IsConv(ctx, reps, r, l) && Complete(clar, r)
    ensures Complete(ctx, Equivalents(ctx, classes, reps) + l)
  {
    var eq := Equivalents(ctx, classes, reps);
    RepsApart(ctx, classes, reps);
    forall x: set<nat> | x <= ctx.Attributes() && Respects(eq + l, x) ensures ctx.Closure(x) == x {
      RespectsParts(eq, l, x);
      WholeAfter(ctx, classes, reps, x);
      ConvRespects(ctx, reps, r, l, x);
      BackInRange(reps, x);
      WholeClosed(ctx, clar, classes, reps, x);
    }
  }

  ghost predicate Holds(ctx: Context, f: Implication) {
    f.premise <= ctx.Attributes() && f.closure <= ctx.Attributes() && f.closure <= ctx.Closure(f.premise)
  }

  lemma {:induction false} ClassHolds(ctx: Context, classes: seq<set<nat>>, reps: seq<nat>, c: nat, n: nat)
    requires ctx.Valid() && IsClassesOf(ctx, classes, reps) && c < |classes| && n <= |ctx.cols|
    ensures forall i | 0 <= i < |OfClass(ctx, classes[c], reps[c], n)| ::
        Holds(ctx, OfClass(ctx, classes[c], reps[c], n)[i])
  {
    if n > 0 {
      ClassHolds(ctx, classes, reps, c, n - 1);
      if n - 1 in classes[c] {
        RepFirst(ctx, classes, reps, c);
        assert IsRep(ctx, reps[c]);
        SameColumnImplies(ctx, n - 1, reps[c]);
        SameColumnImplies(ctx, reps[c], n - 1);
      }
    }
  }

  lemma SameColumnImplies(ctx: Context, a: nat, b: nat)
    requires ctx.Valid() && a < |ctx.cols| && b < |ctx.cols| && ctx.cols[a] == ctx.cols[b]
    ensures {b} <= ctx.Closure({a})
  {
    ClosureOfOne(ctx, a);
  }

  lemma {:induction false} ClassesHold(ctx: Context, classes: seq<set<nat>>, reps: seq<nat>, k: nat)
    requires ctx.Valid() && IsClassesOf(ctx, classes, reps) && k <= |classes| == |reps|
    ensures forall i | 0 <= i < |OfClasses(ctx, classes, reps, k)| :: Holds(ctx, OfClasses(ctx, classes, reps, k)[i])
  {
    hide Holds, IsClassesOf;
    if k > 0 {
      ClassesHold(ctx, classes, reps, k - 1);
      ClassHolds(ctx, classes, reps, k - 1, |ctx.cols|);
    }
  }

  lemma ConvHolds(ctx: Context, clar: Context, classes: seq<set<nat>>, reps: seq<nat>, f: Implication)
    requires ctx.Valid() && IsClarification(ctx, clar, classes, reps)
    requires f.premise <= Range(|reps|) && f.closure <= Range(|reps|) && f.closure <= clar.Closure(f.premise)
    ensures Holds(ctx, ConvRule(ctx, reps, f))
  {
    RepsApart(ctx, classes, reps);
    ConvExtent(ctx, clar, classes, reps, f.premise);
    ConvExtent(ctx, clar, classes, reps, f.closure);
    ConvClosure(ctx, clar, classes, reps, f.premise);
    BackOfConv(reps, f.closure, ctx.Closure(Conv(reps, f.premise)));
  }

  lemma ConvSound(ctx: Context, clar: Context, classes: seq<set<nat>>, reps: seq<nat>, r: seq<Implication>,
                  l: seq<Implication>)
    requires ctx.Valid() && IsClarification(ctx, clar, classes, reps) && IsConv(ctx, reps, r, l) && Sound(clar, r)
    ensures Sound(ctx, Equivalents(ctx, classes, reps) + l)
  {
    hide Holds;
    var eq := Equivalents(ctx, classes, reps);
    ClassesHold(ctx, classes, reps, |classes|);
    forall i | 0 <= i < |eq + l| ensures Holds(ctx, (eq + l)[i]) {
      if i >= |eq| {
        ConvHolds(ctx, clar, classes, reps, r[i - |eq|]);
      }
    }
    AllHold(ctx, eq + l);
  }

  lemma AllHold(ctx: Context, l: seq<Implication>)
    requires forall i | 0 <= i < |l| :: Holds(ctx, l[i])
    ensures Sound(ctx, l)
  {
    assert forall i | 0 <= i < |l| :: Holds(ctx, l[i]);
  }

  // ---- when one sweep is enough ----

  /** Classes have at most two members, and nothing but the equivalences concludes a class
      with two. */
  ghost predicate PlainClasses(classes: seq<set<nat>>, r: seq<Implication>) {
    forall c | 0 <= c < |classes| && |classes[c]| > 1 ::
      |classes[c]| == 2 && forall i | 0 <= i < |r| :: c !in r[i].closure
  }

  lemma SweepAll(ctx: Context, classes: seq<set<nat>>, reps: seq<nat>, r: seq<Implication>, l: seq<Implication>,
                 s: set<nat>)
    requires IsClassesOf(ctx, classes, reps) && |classes| == |reps| && IsConv(ctx, reps, r, l)
    ensures var x := Sweep(Equivalents(ctx, classes, reps), s);
      && Sweep(r, Back(reps, x)) <= Range(|reps|)
      && Sweep(Equivalents(ctx, classes, reps) + l, s) == x + Conv(reps, Sweep(r, Back(reps, x)))
  {
    RepsApart(ctx, classes, reps);
    SweepConcat(Equivalents(ctx, classes, reps), l, s);
    ConvSweep(ctx, reps, r, l, Sweep(Equivalents(ctx, classes, reps), s));
  }

  /** A member of a class other than the first is only there if the sweep through the
      equivalences put it there. */
  lemma OthersOnlyByClass(ctx: Context, classes: seq<set<nat>>, reps: seq<nat>, r: seq<Implication>,
                          l: seq<Implication>,
                          s: set<nat>, c: nat, a: nat)
    requires IsClassesOf(ctx, classes, reps) && |classes| == |reps| && IsConv(ctx, reps, r, l)
    requires c < |classes| && a in classes[c] && a != reps[c]
    ensures a in Sweep(Equivalents(ctx, classes, reps) + l, s) <==> exists b :: b in classes[c] && b in s && b <= a
  {
    hide Conv, Back, IsConv;
    SweepAll(ctx, classes, reps, r, l, s);
    AfterEquivalences(ctx, classes, reps, s, c, a);
    NotARep(ctx, classes, reps, c, a, Sweep(r, Back(reps, Sweep(Equivalents(ctx, classes, reps), s))));
  }

  lemma NotARep(ctx: Context, classes: seq<set<nat>>, reps: seq<nat>, c: nat, a: nat, s: set<nat>)
    requires IsClassesOf(ctx, classes, reps) && |classes| == |reps| && c < |classes| && a in classes[c] && a != reps[c]
    requires s <= Range(|reps|)
    ensures a !in Conv(reps, s)
  {
    forall d | d in s ensures reps[d] != a {
      RepFirst(ctx, classes, reps, d);
      if reps[d] == a { ClassesApart(ctx, classes, reps, c, d, a); }
    }
  }

  /** Starting from representatives, the equivalences add no representative. */
  lemma BackUnchanged(ctx: Context, classes: seq<set<nat>>, reps: seq<nat>, s: set<nat>)
    requires IsClassesOf(ctx, classes, reps) && |classes| == |reps| && s <= Range(|reps|)
    ensures Back(reps, Sweep(Equivalents(ctx, classes, reps), Conv(reps, s))) == s
  {
    var y := Sweep(Equivalents(ctx, classes, reps), Conv(reps, s));
    RepsApart(ctx, classes, reps);
    forall c: nat | c < |reps| ensures reps[c] in y <==> c in s {
      RepFirst(ctx, classes, reps, c);
      AfterEquivalences(ctx, classes, reps, Conv(reps, s), c, reps[c]);
      if b :| b in classes[c] && b in Conv(reps, s) {
        if b != reps[c] { NotARep(ctx, classes, reps, c, b, s); }
      }
    }
  }

  /** The classes of a direct basis have a direct basis. */
  lemma DirectBelow(ctx: Context, clar: Context, classes: seq<set<nat>>, reps: seq<nat>, r: seq<Implication>,
                    l: seq<Implication>)
    requires ctx.Valid() && IsClarification(ctx, clar, classes, reps) && IsConv(ctx, reps, r, l)
    requires OrderedDirect(ctx, Equivalents(ctx, classes, reps) + l)
    ensures OrderedDirect(clar, r)
  {
    RepsApart(ctx, classes, reps);
    forall s: set<nat> | s <= clar.Attributes() ensures Sweep(r, s) == clar.Closure(s) {
      ConvExtent(ctx, clar, classes, reps, s);
      SweepAll(ctx, classes, reps, r, l, Conv(reps, s));
      BackUnchanged(ctx, classes, reps, s);
      ConvClosure(ctx, clar, classes, reps, s);
      var y := Sweep(Equivalents(ctx, classes, reps), Conv(reps, s));
      BackOfConv(reps, Sweep(r, s), y);
      SweepPrefix(r, 0, s);
    }
  }

  /** Of three equivalent attributes the last one does not reach the second. */
  lemma ThreeFail(ctx: Context, clar: Context, classes: seq<set<nat>>, reps: seq<nat>, r: seq<Implication>,
                  l: seq<Implication>, c: nat)
    requires ctx.Valid() && IsClarification(ctx, clar, classes, reps) && IsConv(ctx, reps, r, l)
    requires OrderedDirect(ctx, Equivalents(ctx, classes, reps) + l) && c < |classes|
    ensures |classes[c]| <= 2
  {
    RepFirst(ctx, classes, reps, c);
    if |classes[c]| > 2 {
      var others := classes[c] - {reps[c]};
      assert classes[c] == others + {reps[c]};
      assert others != {};
      var a :| a in others;
      var b := OtherThan(others, a);
      LaterMissesEarlier(ctx, classes, reps, r, l, c, if a < b then a else b, if a < b then b else a);
    }
  }

  lemma LaterMissesEarlier(ctx: Context, classes: seq<set<nat>>, reps: seq<nat>, r: seq<Implication>,
                           l: seq<Implication>,
                           c: nat, x: nat, y: nat)
    requires ctx.Valid() && IsClassesOf(ctx, classes, reps) && |classes| == |reps| && IsConv(ctx, reps, r, l)
    requires c < |classes| && x in classes[c] && y in classes[c] && reps[c] != x < y
    ensures !OrderedDirect(ctx, Equivalents(ctx, classes, reps) + l)
  {
    RepFirst(ctx, classes, reps, c);
    SameColumnImplies(ctx, y, x);
    OthersOnlyByClass(ctx, classes, reps, r, l, {y}, c, x);
    assert {y} <= ctx.Attributes();
    assert x !in Sweep(Equivalents(ctx, classes, reps) + l, {y});
  }

  lemma OtherThan(s: set<nat>, a: nat) returns (b: nat)
    requires a in s && |s| > 1
    ensures b in s && b != a
  {
    if s - {a} == {} {
      SubsetCard(s, {a});
    }
    b :| b in s - {a};
  }

  /** Representatives of other classes are not in the class. */
  lemma Untouched(ctx: Context, classes: seq<set<nat>>, reps: seq<nat>, s: set<nat>, c: nat)
    requires IsClassesOf(ctx, classes, reps) && |classes| == |reps| && s <= Range(|reps|) && c < |classes| && c !in s
    ensures forall b | b in classes[c] :: b !in Conv(reps, s)
  {
    RepsApart(ctx, classes, reps);
    forall b | b in classes[c] ensures b !in Conv(reps, s) {
      if b == reps[c] {
        BackOfConv(reps, s, {});
        assert c !in Back(reps, Conv(reps, s));
      } else {
        NotARep(ctx, classes, reps, c, b, s);
      }
    }
  }

  /** A rule that concludes a class of two does not reach its second member. */
  lemma ConcludedFail(ctx: Context, clar: Context, classes: seq<set<nat>>, reps: seq<nat>, r: seq<Implication>,
                      l: seq<Implication>, c: nat, i: nat)
    requires ctx.Valid() && IsClarification(ctx, clar, classes, reps) && IsConv(ctx, reps, r, l)
    requires c < |classes| && |classes[c]| > 1
    requires i < |r| && r[i].closure !! r[i].premise && r[i].closure <= clar.Closure(r[i].premise) && c in r[i].closure
    ensures !OrderedDirect(ctx, Equivalents(ctx, classes, reps) + l)
  {
    var s := Conv(reps, r[i].premise);
    RepFirst(ctx, classes, reps, c);
    var a := OtherThan(classes[c], reps[c]);
    ConvExtent(ctx, clar, classes, reps, r[i].premise);
    ImpliedByClass(ctx, clar, classes, reps, s, r[i].premise, c, a);
    OthersOnlyByClass(ctx, classes, reps, r, l, s, c, a);
    Untouched(ctx, classes, reps, r[i].premise, c);
    assert a !in Sweep(Equivalents(ctx, classes, reps) + l, s);
  }

  // ---- the other direction ----

  lemma WholeAfterSweep(ctx: Context, classes: seq<set<nat>>, reps: seq<nat>, s: set<nat>)
    requires IsClassesOf(ctx, classes, reps) && |classes| == |reps|
    requires forall c | 0 <= c < |classes| :: |classes[c]| <= 2
    ensures WholeClasses(classes, Sweep(Equivalents(ctx, classes, reps), s))
  {
    var y := Sweep(Equivalents(ctx, classes, reps), s);
    forall c | 0 <= c < |classes| ensures classes[c] <= y || classes[c] !! y {
      RepFirst(ctx, classes, reps, c);
      if b :| b in classes[c] && b in s {
        forall a | a in classes[c] ensures a in y {
          AfterEquivalences(ctx, classes, reps, s, c, a);
          if a != reps[c] && b > a {
            SubsetCard({reps[c], a, b}, classes[c]);
          }
        }
      } else {
        forall a | a in classes[c] ensures a !in y {
          AfterEquivalences(ctx, classes, reps, s, c, a);
        }
      }
    }
  }

  lemma EquivalentsWithin(ctx: Context, classes: seq<set<nat>>, reps: seq<nat>, s: set<nat>)
    requires ctx.Valid() && IsClassesOf(ctx, classes, reps) && |classes| == |reps| && s <= ctx.Attributes()
    ensures var y := Sweep(Equivalents(ctx, classes, reps), s);
      s <= y <= ctx.Closure(s) && y <= ctx.Attributes() && ctx.Closure(y) == ctx.Closure(s)
  {
    var eq := Equivalents(ctx, classes, reps);
    var y := Sweep(eq, s);
    ClassesHold(ctx, classes, reps, |classes|);
    ClosureExtensive(ctx, s);
    ClosureIdempotent(ctx, s);
    forall i | 0 <= i < |eq| && eq[i].premise <= ctx.Closure(s) ensures eq[i].closure <= ctx.Closure(s) {
      assert Holds(ctx, eq[i]);
      ClosureMonotone(ctx, eq[i].premise, ctx.Closure(s));
    }
    SweepWithin(eq, s, ctx.Closure(s));
    SweepPrefix(eq, 0, s);
    ClosureMonotone(ctx, s, y);
    ClosureMonotone(ctx, y, ctx.Closure(s));
  }

  /** What follows by classes is there by representatives: the second members of concluded
      classes were there before. */
  lemma ReachedWhole(ctx: Context, clar: Context, classes: seq<set<nat>>, reps: seq<nat>, r: seq<Implication>,
                     x: set<nat>, a: nat)
    requires ctx.Valid() && IsClarification(ctx, clar, classes, reps) && PlainClasses(classes, r)
      && Within(r, Range(|reps|))
    requires x <= ctx.Attributes() && WholeClasses(classes, x) && Sweep(r, Back(reps, x)) == clar.Closure(Back(reps, x))
    ensures a in ctx.Closure(x) <==> a in x + Conv(reps, clar.Closure(Back(reps, x)))
  {
    hide Context.Valid, Within, Sweep;
    var k := clar.Closure(Back(reps, x));
    assert k <= Range(|reps|);
    RepsApart(ctx, classes, reps);
    WholeExtent(ctx, clar, classes, reps, x);
    ClosureExtensive(ctx, x);
    if a < |ctx.cols| {
      assert InSomeClass(classes, a);
      var c :| 0 <= c < |classes| && a in classes[c];
      RepFirst(ctx, classes, reps, c);
      ImpliedByClass(ctx, clar, classes, reps, x, Back(reps, x), c, a);
      BackOfConv(reps, k, {});
      assert reps[c] in Conv(reps, k) <==> c in k;
      if a != reps[c] {
        NotARep(ctx, classes, reps, c, a, k);
        SubsetCard({a, reps[c]}, classes[c]);
        if c in k && c !in Back(reps, x) {
          var j := FirstAdded(r, Back(reps, x), c);
        }
      }
    } else {
      forall d | d in k ensures reps[d] != a {}
    }
  }

  lemma DirectAbove(ctx: Context, clar: Context, classes: seq<set<nat>>, reps: seq<nat>, r: seq<Implication>,
                    l: seq<Implication>)
    requires ctx.Valid() && IsClarification(ctx, clar, classes, reps) && IsConv(ctx, reps, r, l)
    requires OrderedDirect(clar, r) && PlainClasses(classes, r)
    ensures OrderedDirect(ctx, Equivalents(ctx, classes, reps) + l)
  {
    forall s: set<nat> | s <= ctx.Attributes() ensures Sweep(Equivalents(ctx, classes, reps) + l, s) == ctx.Closure(s) {
      var x := Sweep(Equivalents(ctx, classes, reps), s);
      SweepAll(ctx, classes, reps, r, l, s);
      WholeAfterSweep(ctx, classes, reps, s);
      EquivalentsWithin(ctx, classes, reps, s);
      BackInRange(reps, x);
      forall a ensures a in ctx.Closure(x) <==> a in x + Conv(reps, clar.Closure(Back(reps, x))) {
        ReachedWhole(ctx, clar, classes, reps, r, x, a);
      }
    }
  }

  /** The exact condition for any context: the clarified part is direct, and the classes
      are plain. */
  lemma DirectIffPlain(ctx: Context, clar: Context, classes: seq<set<nat>>, reps: seq<nat>, r: seq<Implication>,
                       l: seq<Implication>)
    requires ctx.Valid() && IsClarification(ctx, clar, classes, reps) && IsConv(ctx, reps, r, l) && Sound(clar, r)
    requires forall i | 0 <= i < |r| :: r[i].closure !! r[i].premise
    ensures OrderedDirect(ctx, Equivalents(ctx, classes, reps) + l)
      <==> OrderedDirect(clar, r) && PlainClasses(classes, r)
  {
    if OrderedDirect(ctx, Equivalents(ctx, classes, reps) + l) {
      DirectBelow(ctx, clar, classes, reps, r, l);
      forall c | 0 <= c < |classes| && |classes[c]| > 1
        ensures |classes[c]| == 2 && forall i | 0 <= i < |r| :: c !in r[i].closure
      {
        ThreeFail(ctx, clar, classes, reps, r, l, c);
        forall i | 0 <= i < |r| ensures c !in r[i].closure {
          if c in r[i].closure { ConcludedFail(ctx, clar, classes, reps, r, l, c, i); }
        }
      }
    }
    if OrderedDirect(clar, r) && PlainClasses(classes, r) {
      DirectAbove(ctx, clar, classes, reps, r, l);
    }
  }

  // ---- the rules that remain, seen from the classes ----

  ghost function BackRule(reps: seq<nat>, f: Implication): Implication {
    Implication(Back(reps, f.premise), Back(reps, f.closure), {})
  }

  ghost function BackRules(reps: seq<nat>, l: seq<Implication>): seq<Implication> {
    seq(|l|, k requires 0 <= k < |l| => BackRule(reps, l[k]))
  }

  /** What the reduction of the written-back rules returns. */
  ghost predicate IsReduction(ctx: Context, rules: seq<Implication>, result: seq<Implication>)
    requires ctx.Valid()
  {
    if Acyclic(rules, |ctx.cols|) then Grouped(ctx, rules, result, |ctx.cols|) else result == rules
  }

  lemma ReductionSelects(ctx: Context, rules: seq<Implication>, result: seq<Implication>, k: nat)
    requires ctx.Valid() && IsReduction(ctx, rules, result) && k < |result|
    ensures result[k] in rules
  {
    if Acyclic(rules, |ctx.cols|) {
      assert InSomeGroup(ctx, rules, result[k], |ctx.cols|);
      var a: nat :| a < |ctx.cols| && Chosen(ctx, rules, result[k], a);
      var i: nat :| IsChosen(ctx, rules, result[k], a, i);
    }
  }

  lemma BackIsRule(ctx: Context, clar: Context, classes: seq<set<nat>>, reps: seq<nat>,
                   rules: seq<Implication>, written: seq<Implication>, f: Implication)
    requires IsClarification(ctx, clar, classes, reps) && IsConv(ctx, reps, rules, written) && f in written
    requires forall i | 0 <= i < |rules| :: IsRule(clar, rules[i])
    ensures IsRule(clar, BackRule(reps, f)) && BackRule(reps, f).premise <= Range(|reps|)
      && BackRule(reps, f).closure <= Range(|reps|)
    ensures ConvRule(ctx, reps, BackRule(reps, f)) == f
  {
    var i :| 0 <= i < |written| && written[i] == f;
    RepsApart(ctx, classes, reps);
    BackOfConv(reps, rules[i].premise, {});
    BackOfConv(reps, rules[i].closure, {});
    var target: nat :| target < |clar.cols| && IsRuleOf(clar, rules[i], target);
    assert IsRuleOf(clar, BackRule(reps, f), target);
  }

  lemma BackIsConv(ctx: Context, clar: Context, classes: seq<set<nat>>, reps: seq<nat>,
                   rules: seq<Implication>, written: seq<Implication>, result: seq<Implication>)
    requires ctx.Valid() && IsClarification(ctx, clar, classes, reps) && IsConv(ctx, reps, rules, written)
    requires forall i | 0 <= i < |rules| :: IsRule(clar, rules[i])
    requires IsReduction(ctx, written, result)
    ensures IsConv(ctx, reps, BackRules(reps, result), result)
    ensures forall k | 0 <= k < |result| :: IsRule(clar, BackRules(reps, result)[k])
  {
    hide IsRule, IsConv, IsReduction, IsClarification, BackRule, ConvRule;
    var kept := BackRules(reps, result);
    forall k | 0 <= k < |result|
      ensures IsRule(clar, kept[k]) && kept[k].premise <= Range(|reps|) && kept[k].closure <= Range(|reps|)
      ensures ConvRule(ctx, reps, kept[k]) == result[k]
    {
      ReductionSelects(ctx, written, result, k);
      BackIsRule(ctx, clar, classes, reps, rules, written, result[k]);
    }
    EachIsConv(ctx, reps, kept, result);
  }

  lemma EachIsConv(ctx: Context, reps: seq<nat>, r: seq<Implication>, l: seq<Implication>)
    requires |r| == |l|
    requires forall k | 0 <= k < |r| ::
        r[k].premise <= Range(|reps|) && r[k].closure <= Range(|reps|) && ConvRule(ctx, reps, r[k]) == l[k]
    ensures IsConv(ctx, reps, r, l)
  {}

  lemma OneRep(reps: seq<nat>, t: nat)
    requires NoRepeats(reps) && t < |reps|
    ensures Conv(reps, {t}) == {reps[t]} && Back(reps, {reps[t]}) == {t}
  {}

  /** Comparing closures in the context is comparing them in the clarified one. */
  lemma ClosureCompare(ctx: Context, clar: Context, classes: seq<set<nat>>, reps: seq<nat>, h: set<nat>, g: set<nat>)
    requires ctx.Valid() && IsClarification(ctx, clar, classes, reps) && h <= Range(|reps|) && g <= Range(|reps|)
    requires ctx.Closure(Conv(reps, h)) < ctx.Closure(Conv(reps, g))
    ensures clar.Closure(h) < clar.Closure(g)
  {
    ConvClosure(ctx, clar, classes, reps, h);
    ConvClosure(ctx, clar, classes, reps, g);
    ConvExtent(ctx, clar, classes, reps, h);
    ConvExtent(ctx, clar, classes, reps, g);
    var a :| a in ctx.Closure(Conv(reps, g)) && a !in ctx.Closure(Conv(reps, h));
    assert InSomeClass(classes, a);
    var c :| 0 <= c < |classes| && a in classes[c];
    ImpliedByClass(ctx, clar, classes, reps, Conv(reps, h), h, c, a);
    ImpliedByClass(ctx, clar, classes, reps, Conv(reps, g), g, c, a);
  }

  /** A rule of the written-back list, with its target. */
  lemma WrittenRule(ctx: Context, clar: Context, classes: seq<set<nat>>, reps: seq<nat>,
                    rules: seq<Implication>, written: seq<Implication>, i: nat, t: nat)
    requires ctx.Valid() && IsClarification(ctx, clar, classes, reps) && IsConv(ctx, reps, rules, written)
      && i < |rules|
    requires IsRule(clar, rules[i]) && t < |reps|
    ensures IsFirst(reps[t], written[i].closure) <==> rules[i].closure == {t}
    ensures written[i].premise == Conv(reps, rules[i].premise)
  {
    RepsApart(ctx, classes, reps);
    var target: nat :| target < |clar.cols| && IsRuleOf(clar, rules[i], target);
    OneRep(reps, target);
    assert reps[target] == reps[t] <==> target == t;
  }

  /** A sharp cover of a class is chosen. */
  lemma SharpIsChosen(ctx: Context, clar: Context, classes: seq<set<nat>>, reps: seq<nat>,
                      rules: seq<Implication>, written: seq<Implication>, i: nat, t: nat)
    requires ctx.Valid() && IsClarification(ctx, clar, classes, reps) && IsConv(ctx, reps, rules, written)
      && i < |rules|
    requires (forall i | 0 <= i < |rules| :: IsRule(clar, rules[i])) && t < |reps|
    requires rules[i].closure == {t} && IsSharpCover(clar, t, rules[i].premise)
    ensures Chosen(ctx, written, written[i], reps[t])
  {
    WrittenRule(ctx, clar, classes, reps, rules, written, i, t);
    forall j: nat | j < |written| && j != i && IsFirst(reps[t], written[j].closure)
      ensures !(ctx.Closure(written[j].premise) < ctx.Closure(written[i].premise))
    {
      WrittenRule(ctx, clar, classes, reps, rules, written, j, t);
      RuleShape(clar, rules[j], t);
      if ctx.Closure(written[j].premise) < ctx.Closure(written[i].premise) {
        ClosureCompare(ctx, clar, classes, reps, rules[j].premise, rules[i].premise);
      }
    }
    assert IsChosen(ctx, written, written[i], reps[t], i);
  }

  lemma BackHasRule(ctx: Context, reps: seq<nat>, result: seq<Implication>, f: Implication, r: Implication)
    requires NoRepeats(reps) && r.premise <= Range(|reps|) && r.closure <= Range(|reps|) && f == ConvRule(ctx, reps, r)
    requires f in result
    ensures HasRule(BackRules(reps, result), r.premise, r.closure)
  {
    BackOfConv(reps, r.premise, {});
    BackOfConv(reps, r.closure, {});
    var k :| 0 <= k < |result| && result[k] == f;
    assert BackRules(reps, result)[k] == BackRule(reps, f);
  }

  /** Without cycles the reduction keeps the sharp covers, in the order of the targets. */
  lemma ReducedList(ctx: Context, clar: Context, classes: seq<set<nat>>, reps: seq<nat>,
                    rules: seq<Implication>, written: seq<Implication>, result: seq<Implication>)
    requires ctx.Valid() && IsClarification(ctx, clar, classes, reps) && IsConv(ctx, reps, rules, written)
    requires AreRules(clar, rules, |clar.cols|) && Grouped(ctx, written, result, |ctx.cols|)
    requires forall k | 0 <= k < |result| :: IsRule(clar, BackRules(reps, result)[k])
    ensures KeepsSharp(clar, BackRules(reps, result)) && Ascending(BackRules(reps, result))
  {
    var kept := BackRules(reps, result);
    RepsApart(ctx, classes, reps);
    forall t: nat, g: set<nat> | t < |clar.cols| && IsSharpCover(clar, t, g) ensures HasRule(kept, g, {t}) {
      assert HasRule(rules, g, {t});
      var i :| 0 <= i < |rules| && rules[i].premise == g && rules[i].closure == {t};
      SharpIsChosen(ctx, clar, classes, reps, rules, written, i, t);
      assert written[i] in result;
      BackHasRule(ctx, reps, result, written[i], rules[i]);
    }
    KeptAscend(ctx, clar, classes, reps, written, result);
  }

  lemma KeptAscend(ctx: Context, clar: Context, classes: seq<set<nat>>, reps: seq<nat>, written: seq<Implication>,
                   result: seq<Implication>)
    requires IsClarification(ctx, clar, classes, reps) && Grouped(ctx, written, result, |ctx.cols|)
    requires forall k | 0 <= k < |result| :: BackRules(reps, result)[k].closure <= Range(|reps|)
    requires forall k | 0 <= k < |result| :: result[k].closure == Conv(reps, BackRules(reps, result)[k].closure)
    ensures Ascending(BackRules(reps, result))
  {
    hide Conv, InSomeClass, Context.Valid, InSomeGroup;
    var kept := BackRules(reps, result);
    RepsApart(ctx, classes, reps);
    forall i, j, a: nat, b: nat | 0 <= i <= j < |kept| && HasTarget(kept[i], a) && HasTarget(kept[j], b)
      ensures a <= b {
      assert a in kept[i].closure && b in kept[j].closure;
      OneRep(reps, a);
      OneRep(reps, b);
      assert IsFirst(reps[a], result[i].closure) && IsFirst(reps[b], result[j].closure);
    }
  }

  ghost function RankOf(ctx: Context, reps: seq<nat>, written: seq<Implication>): nat -> nat
    requires forall c | 0 <= c < |reps| :: reps[c] < |ctx.cols|
  {
    (c: nat) => if c < |reps| then |Reachable(DependencyGraph(written, |ctx.cols|), reps[c])| else 0
  }

  /** Without cycles the attributes of every minimal cover rank below its target. */
  lemma AcyclicRanks(ctx: Context, clar: Context, classes: seq<set<nat>>, reps: seq<nat>, rules: seq<Implication>,
                     written: seq<Implication>)
    requires ctx.Valid() && IsClarification(ctx, clar, classes, reps) && IsConv(ctx, reps, rules, written)
    requires AreRules(clar, rules, |clar.cols|) && Acyclic(written, |ctx.cols|)
    ensures (forall c | 0 <= c < |reps| :: reps[c] < |ctx.cols|) && Ranked(clar, RankOf(ctx, reps, written))
  {
    RepsApart(ctx, classes, reps);
    forall t: nat, g: set<nat>, y: nat | t < |clar.cols| && IsMinimalCover(clar, t, g) && |g| > 1 && y in g
      ensures y < |reps| && RankOf(ctx, reps, written)(y) < RankOf(ctx, reps, written)(t)
    {
      assert HasRule(rules, g, {t});
      var i :| 0 <= i < |rules| && rules[i].premise == g && rules[i].closure == {t};
      WrittenRule(ctx, clar, classes, reps, rules, written, i, t);
      ConvCard(reps, g);
      assert Feeds(written[i], reps[t], reps[y]);
      assert DependsOn(written, reps[t], reps[y]);
      EdgeDescends(DependencyGraph(written, |ctx.cols|), reps[t], reps[y]);
    }
  }

  lemma {:induction false} ConvCard(reps: seq<nat>, s: set<nat>)
    requires NoRepeats(reps) && s <= Range(|reps|)
    ensures |Conv(reps, s)| == |s|
  {
    hide NoRepeats;
    if c :| c in s {
      var r := s - {c};
      ConvCard(reps, r);
      ConvUnion(reps, r, {c});
      OneRep(reps, c);
      assert r + {c} == s;
      NotConverted(reps, r, c);
      hide Conv;
      assert Conv(reps, s) == Conv(reps, r) + {reps[c]};
    } else {
      assert Conv(reps, s) == {};
    }
  }

  lemma NotConverted(reps: seq<nat>, r: set<nat>, c: nat)
    requires NoRepeats(reps) && r <= Range(|reps|) && c < |reps| && c !in r
    ensures reps[c] !in Conv(reps, r)
  {}

  lemma ConvConcat(ctx: Context, reps: seq<nat>, r: seq<Implication>, l: seq<Implication>, r': seq<Implication>,
                   l': seq<Implication>)
    requires IsConv(ctx, reps, r, l) && IsConv(ctx, reps, r', l')
    ensures IsConv(ctx, reps, r + r', l + l')
  {
    assert forall i | 0 <= i < |r + r'| :: (r + r')[i] == if i < |r| then r[i] else r'[i - |r|];
  }

  /** No rule concludes an attribute of its premise. */
  lemma NoneCircular(clar: Context, binary: seq<Implication>, kept: seq<Implication>)
    requires WellFormed(Above(clar)) && IsBinaryBasis(clar, binary)
    requires forall k | 0 <= k < |kept| :: IsRule(clar, kept[k])
    ensures forall i | 0 <= i < |binary + kept| :: (binary + kept)[i].closure !! (binary + kept)[i].premise
  {
    forall i | 0 <= i < |binary + kept| ensures (binary + kept)[i].closure !! (binary + kept)[i].premise {
      if i >= |binary| {
        var f := kept[i - |binary|];
        var t: nat :| t < |clar.cols| && IsRuleOf(clar, f, t);
        RuleShape(clar, f, t);
      }
    }
  }

  // ---- which rules are kept ----

  lemma ClosureCompareBack(ctx: Context, clar: Context, classes: seq<set<nat>>, reps: seq<nat>, h: set<nat>,
                           g: set<nat>)
    requires ctx.Valid() && IsClarification(ctx, clar, classes, reps) && h <= Range(|reps|) && g <= Range(|reps|)
    requires clar.Closure(h) < clar.Closure(g)
    ensures ctx.Closure(Conv(reps, h)) < ctx.Closure(Conv(reps, g))
  {
    ConvExtent(ctx, clar, classes, reps, h);
    ConvExtent(ctx, clar, classes, reps, g);
    forall a | a in ctx.Closure(Conv(reps, h)) ensures a in ctx.Closure(Conv(reps, g)) {
      assert InSomeClass(classes, a);
      var c :| 0 <= c < |classes| && a in classes[c];
      ImpliedByClass(ctx, clar, classes, reps, Conv(reps, h), h, c, a);
      ImpliedByClass(ctx, clar, classes, reps, Conv(reps, g), g, c, a);
    }
    var c :| c in clar.Closure(g) && c !in clar.Closure(h);
    RepFirst(ctx, classes, reps, c);
    ImpliedByClass(ctx, clar, classes, reps, Conv(reps, h), h, c, reps[c]);
    ImpliedByClass(ctx, clar, classes, reps, Conv(reps, g), g, c, reps[c]);
  }

  /** A chosen rule has the premise of a sharp cover. */
  lemma ChosenIsSharp(ctx: Context, clar: Context, classes: seq<set<nat>>, reps: seq<nat>,
                      rules: seq<Implication>, written: seq<Implication>, i: nat, t: nat)
    requires ctx.Valid() && IsClarification(ctx, clar, classes, reps) && IsConv(ctx, reps, rules, written)
      && i < |rules|
    requires AreRules(clar, rules, |clar.cols|) && t < |reps| && rules[i].closure == {t}
    requires !Beaten(ctx, written, i, reps[t])
    ensures IsSharpCover(clar, t, rules[i].premise)
  {
    hide IsMinimalCover, IsConv, IsClarification;
    WrittenRule(ctx, clar, classes, reps, rules, written, i, t);
    SameNumber(ctx, clar, classes, reps, rules, written);
    RuleShape(clar, rules[i], t);
    forall h: set<nat> | IsMinimalCover(clar, t, h) && |h| > 1
      ensures !(clar.Closure(h) < clar.Closure(rules[i].premise)) {
      assert HasRule(rules, h, {t});
      var j: nat :| j < |rules| && rules[j].premise == h && rules[j].closure == {t};
      WrittenRule(ctx, clar, classes, reps, rules, written, j, t);
      ConvCard(reps, h);
      if clar.Closure(h) < clar.Closure(rules[i].premise) {
        ClosureCompareBack(ctx, clar, classes, reps, h, rules[i].premise);
      }
    }
  }

  lemma SameNumber(ctx: Context, clar: Context, classes: seq<set<nat>>, reps: seq<nat>, rules: seq<Implication>,
                   written: seq<Implication>)
    requires IsClarification(ctx, clar, classes, reps) && IsConv(ctx, reps, rules, written)
    ensures |written| == |rules| && Within(rules, Range(|reps|)) && |reps| == |clar.cols| && NoRepeats(reps)
  {
    RepsApart(ctx, classes, reps);
  }

  lemma KeptRuleIsSharp(ctx: Context, clar: Context, classes: seq<set<nat>>, reps: seq<nat>,
                        rules: seq<Implication>, written: seq<Implication>, result: seq<Implication>, g: set<nat>,
                            t: nat)
    requires ctx.Valid() && IsClarification(ctx, clar, classes, reps) && IsConv(ctx, reps, rules, written)
    requires AreRules(clar, rules, |clar.cols|) && Grouped(ctx, written, result, |ctx.cols|)
    requires t < |clar.cols| && HasRule(BackRules(reps, result), g, {t})
    ensures IsSharpCover(clar, t, g)
  {
    var k :| 0 <= k < |result| && BackRule(reps, result[k]).premise == g && BackRule(reps, result[k]).closure == {t};
    assert InSomeGroup(ctx, written, result[k], |ctx.cols|);
    var a: nat :| a < |ctx.cols| && Chosen(ctx, written, result[k], a);
    var i: nat :| IsChosen(ctx, written, result[k], a, i);
    BackIsWritten(ctx, clar, classes, reps, rules, written, i);
    WrittenRule(ctx, clar, classes, reps, rules, written, i, t);
    ConvCard(reps, rules[i].premise);
    RuleShape(clar, rules[i], t);
    hide IsMinimalCover, IsConv, IsClarification, AreRules, IsSharpCover, Grouped;
    ChosenIsSharp(ctx, clar, classes, reps, rules, written, i, t);
  }

  lemma BackIsWritten(ctx: Context, clar: Context, classes: seq<set<nat>>, reps: seq<nat>,
                      rules: seq<Implication>, written: seq<Implication>, i: nat)
    requires IsClarification(ctx, clar, classes, reps) && IsConv(ctx, reps, rules, written) && i < |written|
    ensures i < |rules| && rules[i].premise <= Range(|reps|) && rules[i].closure <= Range(|reps|) && NoRepeats(reps)
    ensures BackRule(reps, written[i]).premise == rules[i].premise
      && BackRule(reps, written[i]).closure == rules[i].closure
  {
    RepsApart(ctx, classes, reps);
    BackOfConv(reps, rules[i].premise, {});
    BackOfConv(reps, rules[i].closure, {});
  }

  // ---- cycles, seen from the classes ----

  ghost function RankIn(reps: seq<nat>, rank: nat -> nat, a: nat): nat {
    if c: nat :| c < |reps| && reps[c] == a then rank(c) else 0
  }

  /** The written rules have no cycle exactly when the covers have none. */
  lemma CyclesAlike(ctx: Context, clar: Context, classes: seq<set<nat>>, reps: seq<nat>, rules: seq<Implication>,
                    written: seq<Implication>)
    requires ctx.Valid() && IsClarification(ctx, clar, classes, reps) && IsConv(ctx, reps, rules, written)
    requires AreRules(clar, rules, |clar.cols|)
    ensures Acyclic(written, |ctx.cols|) <==> NoCycles(CoverDependencies(clar))
  {
    hide IsMinimalCover, IsConv, IsClarification, AreRules;
    if Acyclic(written, |ctx.cols|) {
      AcyclicRanks(ctx, clar, classes, reps, rules, written);
      RankedHasNoCycles(clar, RankOf(ctx, reps, written));
    }
    if NoCycles(CoverDependencies(clar)) {
      var rank := RankedByReach(clar);
      var g := DependencyGraph(written, |ctx.cols|);
      var rank' := (a: nat) => RankIn(reps, rank, a);
      forall u, v | 0 <= u < |g| && v in g[u] ensures rank'(v) < rank'(u) {
        WrittenFalls(ctx, clar, classes, reps, rules, written, rank, u, v);
      }
      FallingHasNoCycles(g, rank');
    }
  }

  lemma WrittenFalls(ctx: Context, clar: Context, classes: seq<set<nat>>, reps: seq<nat>, rules: seq<Implication>,
                     written: seq<Implication>,
                     rank: nat -> nat, u: nat, v: nat)
    requires ctx.Valid() && IsClarification(ctx, clar, classes, reps) && IsConv(ctx, reps, rules, written)
    requires AreRules(clar, rules, |clar.cols|) && Ranked(clar, rank) && DependsOn(written, u, v)
    ensures RankIn(reps, rank, v) < RankIn(reps, rank, u)
  {
    hide Context.Valid, IsConv, IsMinimalCover, IsClassesOf, Within;
    var i: nat :| i < |written| && Feeds(written[i], u, v);
    SameNumber(ctx, clar, classes, reps, rules, written);
    assert IsRule(clar, rules[i]);
    var t: nat :| t < |clar.cols| && IsRuleOf(clar, rules[i], t);
    WrittenRule(ctx, clar, classes, reps, rules, written, i, t);
    hide IsClarification, AreRules;
    assert u == reps[t];
    var y: nat :| y < |reps| && y in rules[i].premise && reps[y] == v;
    RankAt(reps, rank, t);
    RankAt(reps, rank, y);
  }

  lemma RankAt(reps: seq<nat>, rank: nat -> nat, c: nat)
    requires NoRepeats(reps) && c < |reps|
    ensures RankIn(reps, rank, reps[c]) == rank(c)
  {}

  /** Exactly the minimal covers with two attributes or more are kept, and only the sharp ones
      when the covers have no cycle. */
  ghost predicate KeepsCovers(ctx: Context, kept: seq<Implication>) {
    && (forall k | 0 <= k < |kept| :: IsRule(ctx, kept[k]))
    && forall t: nat, g: set<nat> | t < |ctx.cols| :: HasRule(kept, g, {t}) <==>
         IsMinimalCover(ctx, t, g) && |g| > 1 && (NoCycles(CoverDependencies(ctx)) ==> IsSharpCover(ctx, t, g))
  }

  /** What the reduction keeps, and that it is enough. */
  lemma ReductionKeeps(ctx: Context, clar: Context, classes: seq<set<nat>>, reps: seq<nat>, binary: seq<Implication>,
                       rules: seq<Implication>, written: seq<Implication>, result: seq<Implication>)
    requires ctx.Valid() && IsClarification(ctx, clar, classes, reps) && IsConv(ctx, reps, rules, written)
    requires Clarified(clar) && StrictOrder(Above(clar)) && IsBinaryBasis(clar, binary)
    requires AreRules(clar, rules, |clar.cols|) && IsReduction(ctx, written, result)
    requires forall k | 0 <= k < |result| :: IsRule(clar, BackRules(reps, result)[k])
    ensures KeepsCovers(clar, BackRules(reps, result)) && Complete(clar, binary + BackRules(reps, result))
    ensures OrderedDirect(clar, binary + BackRules(reps, result)) <==>
      (NoCycles(CoverDependencies(clar)) ==> SharpInTime(clar))
  {
    ClarificationBasics(ctx, clar, classes, reps);
    hide IsBinaryBasis, StrictOrder, IsRule, Complete, OrderedDirect, InTime, Clarified, IsClarification,
        IsConv, NoCycles, SharpInTime, KeepsCovers, Context.Valid;
    CyclesAlike(ctx, clar, classes, reps, rules, written);
    if Acyclic(written, |ctx.cols|) {
      SharpKept(ctx, clar, classes, reps, binary, rules, written, result);
    } else {
      AllKept(ctx, clar, classes, reps, rules, written);
      AllAreCovers(clar, BackRules(reps, written));
      DBasisIsDirect(clar, binary, BackRules(reps, written));
      DirectIsComplete(clar, binary + BackRules(reps, written));
    }
  }

  lemma AllAreCovers(ctx: Context, kept: seq<Implication>)
    requires AreRules(ctx, kept, |ctx.cols|) && !NoCycles(CoverDependencies(ctx))
    ensures KeepsCovers(ctx, kept)
  {
    hide IsMinimalCover, NoCycles;
    forall t: nat, g: set<nat> | t < |ctx.cols| && HasRule(kept, g, {t}) ensures IsMinimalCover(ctx, t, g) && |g| > 1 {
      var i :| 0 <= i < |kept| && kept[i].premise == g && kept[i].closure == {t};
      RuleShape(ctx, kept[i], t);
    }
  }

  lemma SharpKept(ctx: Context, clar: Context, classes: seq<set<nat>>, reps: seq<nat>, binary: seq<Implication>,
                  rules: seq<Implication>, written: seq<Implication>, result: seq<Implication>)
    requires ctx.Valid() && IsClarification(ctx, clar, classes, reps) && IsConv(ctx, reps, rules, written)
    requires Clarified(clar) && StrictOrder(Above(clar)) && IsBinaryBasis(clar, binary) && Acyclic(written, |ctx.cols|)
    requires AreRules(clar, rules, |clar.cols|) && Grouped(ctx, written, result, |ctx.cols|)
    requires forall k | 0 <= k < |result| :: IsRule(clar, BackRules(reps, result)[k])
    ensures KeepsCovers(clar, BackRules(reps, result)) && Complete(clar, binary + BackRules(reps, result))
    ensures OrderedDirect(clar, binary + BackRules(reps, result)) <==> SharpInTime(clar)
  {
    var kept := BackRules(reps, result);
    ReducedList(ctx, clar, classes, reps, rules, written, result);
    AcyclicRanks(ctx, clar, classes, reps, rules, written);
    ClarificationBasics(ctx, clar, classes, reps);
    hide IsBinaryBasis, StrictOrder, IsRule, Complete, OrderedDirect, InTime, Clarified, IsClarification,
        IsConv, NoCycles, SharpInTime, AreRules, Grouped, IsSharpCover, HasRule, IsMinimalCover, Context.Valid,
        Acyclic, KeepsCovers;
    EBasisIsComplete(clar, binary, RankOf(ctx, reps, written), kept);
    DirectIffInTime(clar, binary, kept);
    forall t: nat, g: set<nat> | t < |clar.cols| ensures HasRule(kept, g, {t}) <==> IsSharpCover(clar, t, g) {
      if HasRule(kept, g, {t}) { KeptRuleIsSharp(ctx, clar, classes, reps, rules, written, result, g, t); }
    }
    KeptAreSharp(clar, kept);
    CyclesAlike(ctx, clar, classes, reps, rules, written);
    SharpAreKept(clar, kept);
  }

  lemma SharpAreKept(ctx: Context, kept: seq<Implication>)
    requires (forall k | 0 <= k < |kept| :: IsRule(ctx, kept[k])) && NoCycles(CoverDependencies(ctx))
    requires forall t: nat, g: set<nat> | t < |ctx.cols| :: HasRule(kept, g, {t}) <==> IsSharpCover(ctx, t, g)
    ensures KeepsCovers(ctx, kept)
  {
    SharpAreCovers(ctx);
    hide HasRule, IsMinimalCover, IsSharpCover, NoCycles, IsRule;
  }

  lemma SharpAreCovers(ctx: Context)
    ensures forall t: nat, g: set<nat> | t < |ctx.cols|
      && IsSharpCover(ctx, t, g) :: IsMinimalCover(ctx, t, g) && |g| > 1
  {}

  /** With all rules kept nothing needs a replacement. */
  lemma AllKept(ctx: Context, clar: Context, classes: seq<set<nat>>, reps: seq<nat>, rules: seq<Implication>,
                written: seq<Implication>)
    requires IsClarification(ctx, clar, classes, reps) && IsConv(ctx, reps, rules, written)
    requires AreRules(clar, rules, |clar.cols|)
    requires forall k | 0 <= k < |written| :: IsRule(clar, BackRules(reps, written)[k])
    ensures AreRules(clar, BackRules(reps, written), |clar.cols|)
  {
    hide IsRule, IsMinimalCover;
    RepsApart(ctx, classes, reps);
    forall t: nat, g: set<nat> | t < |clar.cols| && IsMinimalCover(clar, t, g) && |g| > 1
      ensures HasRule(BackRules(reps, written), g, {t})
    {
      assert HasRule(rules, g, {t});
      var i :| 0 <= i < |rules| && rules[i].premise == g && rules[i].closure == {t};
      assert written[i] in written;
      BackHasRule(ctx, reps, written, written[i], rules[i]);
    }
  }

  /** Nothing but the equivalences concludes a class of two exactly when an object spares it. */
  lemma PlainIffFree(ctx: Context, clar: Context, classes: seq<set<nat>>, reps: seq<nat>, r: seq<Implication>)
    requires ctx.Valid() && IsClarification(ctx, clar, classes, reps) && Sound(clar, r) && Complete(clar, r)
    requires forall i | 0 <= i < |r| :: r[i].closure !! r[i].premise
    ensures PlainClasses(classes, r) <==> PairsAreFree(ctx)
  {
    PairsByClass(ctx, clar, classes, reps);
    assert clar.Valid() && |reps| == |classes| == |clar.cols|;
    forall c | 0 <= c < |classes|
      ensures (forall i | 0 <= i < |r| :: c !in r[i].closure) <==> SparesOnly(ctx, classes[c]) {
      ConcludedIff(clar, r, c);
      SparesClass(ctx, clar, classes, reps, c);
    }
    hide SparesOnly, PairsAreFree, IsClarification, Sound, Complete;
  }

  /** Sound, complete, and the exact condition for one sweep to be enough. */
  lemma ResultOutcome(ctx: Context, clar: Context, classes: seq<set<nat>>, reps: seq<nat>, binary: seq<Implication>,
                      binaryWritten: seq<Implication>,
                      rules: seq<Implication>, written: seq<Implication>, result: seq<Implication>)
    requires ctx.Valid() && IsClarification(ctx, clar, classes, reps)
    requires IsConv(ctx, reps, binary, binaryWritten) && IsConv(ctx, reps, rules, written)
    requires Clarified(clar) && StrictOrder(Above(clar)) && IsBinaryBasis(clar, binary)
    requires AreRules(clar, rules, |clar.cols|) && IsReduction(ctx, written, result)
    ensures var kept, basis := BackRules(reps, result), Equivalents(ctx, classes, reps) + binaryWritten + result;
      && KeepsCovers(clar, kept)
      && IsConv(ctx, reps, binary + kept, binaryWritten + result)
      && Sound(ctx, basis) && Complete(ctx, basis)
      && (OrderedDirect(ctx, basis) <==> OneSweepIsEnough(ctx))
  {
    hide IsBinaryBasis, StrictOrder, IsRule, Sound, Complete, OrderedDirect, Clarified, PlainClasses,
        IsReduction, IsConv, NoCycles, SharpInTime, PairsAreFree, KeepsCovers;
    var kept := BackRules(reps, result);
    ClarificationBasics(ctx, clar, classes, reps);
    hide IsClarification;
    hide Context.Valid;
    BackIsConv(ctx, clar, classes, reps, rules, written, result);
    ConvConcat(ctx, reps, binary, binaryWritten, kept, result);
    BasisIsSound(clar, binary, kept);
    NoneCircular(clar, binary, kept);
    ReductionKeeps(ctx, clar, classes, reps, binary, rules, written, result);
    ConvSound(ctx, clar, classes, reps, binary + kept, binaryWritten + result);
    ConvComplete(ctx, clar, classes, reps, binary + kept, binaryWritten + result);
    DirectIffPlain(ctx, clar, classes, reps, binary + kept, binaryWritten + result);
    PlainIffFree(ctx, clar, classes, reps, binary + kept);
    ClarifiedIs(ctx, clar, classes, reps);
    assert Equivalents(ctx, classes, reps) + binaryWritten + result == Equivalents(ctx, classes,
        reps) + (binaryWritten + result);
  }

  // ---- each implication once, with its support ----

  /** The support of an implication are the objects that have its premise. */
  ghost predicate Supported(ctx: Context, l: seq<Implication>) {
    forall i | 0 <= i < |l| :: l[i].support == ctx.Extent(l[i].premise)
  }

  /** f leads from a further member of class c to the first one, or back. */
  ghost predicate IsEquivalence(ctx: Context, classes: seq<set<nat>>, reps: seq<nat>, f: Implication, c: nat, a: nat) {
    && c < |classes| == |reps| && a in classes[c] && a != reps[c] && f.support == ctx.Extent(f.premise)
    && ((f.premise == {a} && f.closure == {reps[c]}) || (f.premise == {reps[c]} && f.closure == {a}))
  }

  /** f belongs to class c and one of its members below n. */
  ghost predicate OfMember(ctx: Context, classes: seq<set<nat>>, reps: seq<nat>, f: Implication, c: nat, n: nat) {
    exists a: nat :: a < n && IsEquivalence(ctx, classes, reps, f, c, a)
  }

  ghost predicate OfSomeClass(ctx: Context, classes: seq<set<nat>>, reps: seq<nat>, f: Implication, k: nat) {
    exists c: nat :: c < k && OfMember(ctx, classes, reps, f, c, |ctx.cols|)
  }

  lemma {:induction false} ClassOnce(ctx: Context, classes: seq<set<nat>>, reps: seq<nat>, c: nat, n: nat)
    requires ctx.Valid() && IsClassesOf(ctx, classes, reps) && c < |classes| && n <= |ctx.cols|
    ensures var l := OfClass(ctx, classes[c], reps[c], n);
      NoTwins(l) && forall i | 0 <= i < |l| :: OfMember(ctx, classes, reps, l[i], c, n)
  {
    hide IsEquivalence, Context.Valid;
    if n > 0 {
      ClassOnce(ctx, classes, reps, c, n - 1);
      var l, a := OfClass(ctx, classes[c], reps[c], n - 1), n - 1;
      if a in classes[c] && a != reps[c] {
        InClass(ctx, classes, reps, c, a);
        PairOnce(ctx, classes, reps, l, c, a);
      } else {
        assert OfClass(ctx, classes[c], reps[c], n) == l;
      }
    }
  }

  lemma PairOnce(ctx: Context, classes: seq<set<nat>>, reps: seq<nat>, l: seq<Implication>, c: nat, a: nat)
    requires ctx.Valid() && c < |classes| == |reps| && a in classes[c] && a != reps[c]
    requires a < |ctx.cols| && reps[c] < |ctx.cols| && ctx.cols[a] == ctx.cols[reps[c]]
    requires NoTwins(l) && forall i | 0 <= i < |l| :: OfMember(ctx, classes, reps, l[i], c, a)
    ensures var l' := l + Pair(reps[c], a, ctx.cols[a]);
      NoTwins(l') && forall i | 0 <= i < |l'| :: OfMember(ctx, classes, reps, l'[i], c, a + 1)
  {
    var pair := Pair(reps[c], a, ctx.cols[a]);
    SingleExtent(ctx, a);
    SingleExtent(ctx, reps[c]);
    hide Context.Extent, Context.Valid;
    assert IsEquivalence(ctx, classes, reps, pair[0], c, a) && IsEquivalence(ctx, classes, reps, pair[1], c, a);
    assert a in pair[0].premise && a !in pair[1].premise;
    forall i, j | 0 <= i < |l| && 0 <= j < |pair| ensures !Twins(l[i], pair[j]) {
      assert OfMember(ctx, classes, reps, l[i], c, a);
      assert a in pair[j].premise + pair[j].closure && a !in l[i].premise + l[i].closure;
    }
    TwinsApart(l, pair);
    forall i | 0 <= i < |l + pair| ensures OfMember(ctx, classes, reps, (l + pair)[i], c, a + 1) {
      if i < |l| { assert OfMember(ctx, classes, reps, l[i], c, a); }
    }
  }

  lemma {:induction false} ClassesOnce(ctx: Context, classes: seq<set<nat>>, reps: seq<nat>, k: nat)
    requires ctx.Valid() && IsClassesOf(ctx, classes, reps) && k <= |classes|
    ensures var l := OfClasses(ctx, classes, reps, k);
      NoTwins(l) && forall i | 0 <= i < |l| :: OfSomeClass(ctx, classes, reps, l[i], k)
  {
    assert |classes| == |reps|;
    hide OfClass, IsClassesOf, Context.Valid, OfMember, OfSomeClass;
    if k > 0 {
      ClassesOnce(ctx, classes, reps, k - 1);
      ClassOnce(ctx, classes, reps, k - 1, |ctx.cols|);
      hide NoTwins, IsEquivalence;
      var l, more := OfClasses(ctx, classes, reps, k - 1), OfClass(ctx, classes[k - 1], reps[k - 1], |ctx.cols|);
      forall i, j | 0 <= i < |l| && 0 <= j < |more| ensures !Twins(l[i], more[j]) {
        EarlierClass(ctx, classes, reps, k - 1, l[i], more[j]);
      }
      TwinsApart(l, more);
      forall i | 0 <= i < |l + more| ensures OfSomeClass(ctx, classes, reps, (l + more)[i], k) {
        if i < |l| {
          OfMoreClasses(ctx, classes, reps, (l + more)[i], k - 1);
        } else {
          OfLastClass(ctx, classes, reps, (l + more)[i], k - 1);
        }
      }
    }
  }

  lemma OfMoreClasses(ctx: Context, classes: seq<set<nat>>, reps: seq<nat>, f: Implication, k: nat)
    requires OfSomeClass(ctx, classes, reps, f, k)
    ensures OfSomeClass(ctx, classes, reps, f, k + 1)
  {}

  lemma OfLastClass(ctx: Context, classes: seq<set<nat>>, reps: seq<nat>, f: Implication, k: nat)
    requires OfMember(ctx, classes, reps, f, k, |ctx.cols|)
    ensures OfSomeClass(ctx, classes, reps, f, k + 1)
  {}

  lemma EarlierClass(ctx: Context, classes: seq<set<nat>>, reps: seq<nat>, d: nat, f: Implication, g: Implication)
    requires IsClassesOf(ctx, classes, reps) && d < |classes|
    requires OfSomeClass(ctx, classes, reps, f, d) && OfMember(ctx, classes, reps, g, d, |ctx.cols|)
    ensures !Twins(f, g)
  {
    var c: nat :| c < d && OfMember(ctx, classes, reps, f, c, |ctx.cols|);
    TwoClasses(ctx, classes, reps, c, d, f, g);
  }

  lemma TwoClasses(ctx: Context, classes: seq<set<nat>>, reps: seq<nat>, c: nat, d: nat, f: Implication, g: Implication)
    requires IsClassesOf(ctx, classes, reps) && c < d < |classes|
    requires OfMember(ctx, classes, reps, f, c, |ctx.cols|) && OfMember(ctx, classes, reps, g, d, |ctx.cols|)
    ensures !Twins(f, g)
  {
    var a: nat :| a < |ctx.cols| && IsEquivalence(ctx, classes, reps, f, c, a);
    var b: nat :| b < |ctx.cols| && IsEquivalence(ctx, classes, reps, g, d, b);
    ClassesDisjoint(ctx, classes, reps, c, d, a, b);
    EquivalenceIs(ctx, classes, reps, f, c, a);
    EquivalenceIs(ctx, classes, reps, g, d, b);
    assert a in f.premise + f.closure && a !in g.premise + g.closure;
  }

  lemma EquivalenceIs(ctx: Context, classes: seq<set<nat>>, reps: seq<nat>, f: Implication, c: nat, a: nat)
    requires IsEquivalence(ctx, classes, reps, f, c, a)
    ensures c < |reps| && f.premise + f.closure == {a, reps[c]}
  {}

  lemma ClassesDisjoint(ctx: Context, classes: seq<set<nat>>, reps: seq<nat>, c: nat, d: nat, a: nat, b: nat)
    requires IsClassesOf(ctx, classes, reps) && c < d < |classes| && a in classes[c] && b in classes[d]
    ensures a != b && a != reps[d]
  {
    assert IsRep(ctx, reps[c]) && IsRep(ctx, reps[d]);
  }

  /** A further member of a class is the first member of none. */
  lemma NoFirstMember(ctx: Context, classes: seq<set<nat>>, reps: seq<nat>, c: nat, a: nat, d: nat)
    requires IsClassesOf(ctx, classes, reps) && c < |classes| && a in classes[c] && a != reps[c] && d < |reps|
    ensures a != reps[d]
  {
    assert IsRep(ctx, reps[c]) && IsRep(ctx, reps[d]);
  }

  /** What is written with first members only is no equivalence. */
  lemma WrittenIsApart(ctx: Context, classes: seq<set<nat>>, reps: seq<nat>, r: seq<Implication>, l: seq<Implication>,
                       eq: seq<Implication>)
    requires IsClassesOf(ctx, classes, reps) && IsConv(ctx, reps, r, l)
    requires forall i | 0 <= i < |eq| :: OfSomeClass(ctx, classes, reps, eq[i], |classes|)
    ensures forall i, j | 0 <= i < |eq| && 0 <= j < |l| :: !Twins(eq[i], l[j])
  {
    forall i, j | 0 <= i < |eq| && 0 <= j < |l| ensures !Twins(eq[i], l[j]) {
      var c: nat :| c < |classes| && OfMember(ctx, classes, reps, eq[i], c, |ctx.cols|);
      var a: nat :| a < |ctx.cols| && IsEquivalence(ctx, classes, reps, eq[i], c, a);
      EquivalenceIs(ctx, classes, reps, eq[i], c, a);
      forall x | x in Conv(reps, r[j].premise) + Conv(reps, r[j].closure) ensures x != a {
        var d: nat :| d < |reps| && x == reps[d];
        NoFirstMember(ctx, classes, reps, c, a, d);
      }
      assert l[j] == ConvRule(ctx, reps, r[j]);
      assert a in eq[i].premise + eq[i].closure;
    }
  }

  /** Different rules are written differently. */
  lemma ConvOnce(ctx: Context, reps: seq<nat>, r: seq<Implication>, l: seq<Implication>)
    requires NoRepeats(reps) && IsConv(ctx, reps, r, l) && NoTwins(r)
    ensures NoTwins(l)
  {
    hide Conv;
    forall i, j | 0 <= i < j < |l| ensures !Twins(l[i], l[j]) {
      assert l[i] == ConvRule(ctx, reps, r[i]) && l[j] == ConvRule(ctx, reps, r[j]);
      BackOfConv(reps, r[i].premise, {});
      BackOfConv(reps, r[j].premise, {});
      BackOfConv(reps, r[i].closure, {});
      BackOfConv(reps, r[j].closure, {});
      assert !Twins(r[i], r[j]);
    }
  }

  lemma ConvSupported(ctx: Context, reps: seq<nat>, r: seq<Implication>, l: seq<Implication>)
    requires IsConv(ctx, reps, r, l)
    ensures Supported(ctx, l)
  {
    forall i | 0 <= i < |l| ensures l[i].support == ctx.Extent(l[i].premise) {
      assert l[i] == ConvRule(ctx, reps, r[i]);
    }
  }

  /** The parts of the basis have nothing in common. */
  lemma EachOnce(ctx: Context, classes: seq<set<nat>>, reps: seq<nat>, r: seq<Implication>, l: seq<Implication>)
    requires ctx.Valid() && IsClassesOf(ctx, classes, reps) && |classes| == |reps|
    requires IsConv(ctx, reps, r, l) && NoTwins(r)
    ensures NoTwins(Equivalents(ctx, classes, reps) + l) && Supported(ctx, Equivalents(ctx, classes, reps) + l)
  {
    var eq := Equivalents(ctx, classes, reps);
    RepsApart(ctx, classes, reps);
    ClassesOnce(ctx, classes, reps, |classes|);
    hide IsConv, Conv, OfClasses, IsClassesOf, Context.Valid, Context.Extent;
    ConvOnce(ctx, reps, r, l);
    WrittenIsApart(ctx, classes, reps, r, l, eq);
    TwinsApart(eq, l);
    ConvSupported(ctx, reps, r, l);
    forall i | 0 <= i < |eq| ensures eq[i].support == ctx.Extent(eq[i].premise) {
      assert OfSomeClass(ctx, classes, reps, eq[i], |classes|);
    }
  }

  /** Binary rules have at most one premise, the others more. */
  lemma PartsApart(binary: seq<Implication>, kept: seq<Implication>)
    requires NoTwins(binary) && NoTwins(kept)
    requires (forall i | 0 <= i < |binary| :: |binary[i].premise| < 2)
      && forall i | 0 <= i < |kept| :: |kept[i].premise| >= 2
    ensures NoTwins(binary + kept)
  {
    TwinsApart(binary, kept);
  }

  lemma WrittenOnce(ctx: Context, classes: seq<set<nat>>, reps: seq<nat>, rules: seq<Implication>,
                    written: seq<Implication>)
    requires IsClassesOf(ctx, classes, reps) && IsConv(ctx, reps, rules, written) && NoTwins(rules)
    ensures NoTwins(written)
  {
    RepsApart(ctx, classes, reps);
    ConvOnce(ctx, reps, rules, written);
  }

  lemma KeptOnce(ctx: Context, clar: Context, classes: seq<set<nat>>, reps: seq<nat>, binary: seq<Implication>,
                 rules: seq<Implication>, written: seq<Implication>, result: seq<Implication>)
    requires ctx.Valid() && IsClarification(ctx, clar, classes, reps) && IsConv(ctx, reps, rules, written)
    requires AreRules(clar, rules, |clar.cols|) && IsReduction(ctx, written, result)
    requires NoTwins(binary) && NoTwins(result) && forall i | 0 <= i < |binary| :: |binary[i].premise| < 2
    ensures NoTwins(binary + BackRules(reps, result))
  {
    hide IsClarification, IsReduction, IsMinimalCover, Context.Valid;
    var kept := BackRules(reps, result);
    BackIsConv(ctx, clar, classes, reps, rules, written, result);
    forall i | 0 <= i < |kept| ensures |kept[i].premise| >= 2 {
      assert IsRule(clar, kept[i]);
    }
    BackOnce(ctx, reps, kept, result);
    PartsApart(binary, kept);
  }

  /** What is written differently was different. */
  lemma BackOnce(ctx: Context, reps: seq<nat>, r: seq<Implication>, l: seq<Implication>)
    requires IsConv(ctx, reps, r, l) && NoTwins(l)
    ensures NoTwins(r)
  {
    hide Conv;
    forall i, j | 0 <= i < j < |r| ensures !Twins(r[i], r[j]) {
      assert l[i] == ConvRule(ctx, reps, r[i]) && l[j] == ConvRule(ctx, reps, r[j]);
      assert !Twins(l[i], l[j]);
    }
  }

  // ---- the algorithm ----

  /** The equivalences, class by class. */
  method ListEquivalences(ctx: Context, classes: seq<set<nat>>, reps: seq<nat>) returns (l: seq<Implication>)
    requires ctx.Valid() && IsClassesOf(ctx, classes, reps) && |classes| == |reps|
    ensures l == Equivalents(ctx, classes, reps)
  {
    l := [];
    for c := 0 to |classes|
      invariant l == OfClasses(ctx, classes, reps, c)
    {
      var more := ListClass(ctx, classes, reps, c);
      l := l + more;
    }
  }

  method ListClass(ctx: Context, classes: seq<set<nat>>, reps: seq<nat>, c: nat) returns (l: seq<Implication>)
    requires ctx.Valid() && IsClassesOf(ctx, classes, reps) && c < |classes| == |reps|
    ensures l == OfClass(ctx, classes[c], reps[c], |ctx.cols|)
  {
    hide IsClassesOf, Context.Valid, Context.Extent;
    RepFirst(ctx, classes, reps, c);
    l := [];
    if |classes[c]| > 1 {
      var first := reps[c];
      for a := 0 to |ctx.cols|
        invariant l == OfClass(ctx, classes[c], first, a)
      {
        if a in classes[c] && a != first {
          SingleExtent(ctx, a);
          SingleExtent(ctx, first);
          InClass(ctx, classes, reps, c, a);
          var support := Derivation.ComputeExtent(ctx, {a});
          var support' := Derivation.ComputeExtent(ctx, {first});
          l := l + [Implication({a}, {first}, support), Implication({first}, {a}, support')];
        }
      }
    } else {
      SingleClass(ctx, classes[c], reps[c], |ctx.cols|);
    }
  }

  lemma SingleExtent(ctx: Context, a: nat)
    requires ctx.Valid() && a < |ctx.cols|
    ensures ctx.Extent({a}) == ctx.cols[a]
  {}

  lemma InClass(ctx: Context, classes: seq<set<nat>>, reps: seq<nat>, c: nat, a: nat)
    requires IsClassesOf(ctx, classes, reps) && c < |classes| == |reps| && a in classes[c]
    ensures a < |ctx.cols| && reps[c] < |ctx.cols| && ctx.cols[a] == ctx.cols[reps[c]]
  {
    assert IsRep(ctx, reps[c]);
  }

  lemma {:induction false} SingleClass(ctx: Context, cls: set<nat>, rep: nat, n: nat)
    requires n <= |ctx.cols| && rep in cls && |cls| <= 1
    ensures OfClass(ctx, cls, rep, n) == []
  {
    if n > 0 {
      SingleClass(ctx, cls, rep, n - 1);
      if n - 1 in cls && n - 1 != rep { SubsetCard({rep, n - 1}, cls); }
    }
  }

  /** Writes a set of classes with their first attributes. */
  method Convert(s: set<nat>, classes: seq<set<nat>>, ghost reps: seq<nat>, ghost ctx: Context) returns (r: set<nat>)
    requires IsClassesOf(ctx, classes, reps) && |classes| == |reps| && s <= Range(|reps|)
    ensures r == Conv(reps, s)
  {
    r := {};
    for c := 0 to |classes|
      invariant Derivation.Below(s, c) <= Range(|reps|) && r == Conv(reps, Derivation.Below(s, c))
    {
      RepFirst(ctx, classes, reps, c);
      if c in s {
        var first := Derivation.FirstIn(classes[c], |ctx.cols|);
        assert Derivation.Below(s, c + 1) == Derivation.Below(s, c) + {c};
        r := r + {first};
      } else {
        assert Derivation.Below(s, c + 1) == Derivation.Below(s, c);
      }
    }
    assert Derivation.Below(s, |classes|) == s;
  }

  /** Writes the basis back; premises with two attributes or more are set apart. */
  method WriteBack(ctx: Context, temp: seq<Implication>, classes: seq<set<nat>>, reps: seq<nat>,
                   ghost binary: seq<Implication>, ghost rules: seq<Implication>)
      returns (written: seq<Implication>, nonBinary: seq<Implication>)
    requires ctx.Valid() && IsClassesOf(ctx, classes, reps) && |classes| == |reps| && Within(temp, Range(|reps|))
    requires temp == binary + rules && (forall i | 0 <= i < |binary| :: |binary[i].premise| < 2)
    requires forall i | 0 <= i < |rules| :: |rules[i].premise| >= 2
    ensures IsConv(ctx, reps, binary, written) && IsConv(ctx, reps, rules, nonBinary)
  {
    written, nonBinary := [], [];
    for i := 0 to |temp|
      invariant |written| == (if i < |binary| then i else |binary|) && |nonBinary| == i - |written|
      invariant forall k | 0 <= k < |written| :: written[k] == ConvRule(ctx, reps, temp[k])
      invariant forall k | 0 <= k < |nonBinary| :: nonBinary[k] == ConvRule(ctx, reps, temp[|binary| + k])
    {
      var premise := Convert(temp[i].premise, classes, reps, ctx);
      var conclusion := Convert(temp[i].closure, classes, reps, ctx);
      ConvInContext(ctx, classes, reps, temp[i].premise);
      var support := Derivation.ComputeExtent(ctx, premise);
      assert temp[i] == if i < |binary| then binary[i] else rules[i - |binary|];
      if |temp[i].premise| < 2 {
        written := written + [Implication(premise, conclusion, support)];
      } else {
        nonBinary := nonBinary + [Implication(premise, conclusion, support)];
      }
    }
    assert forall k | 0 <= k < |binary| :: temp[k] == binary[k];
    assert forall k | 0 <= k < |rules| :: temp[|binary| + k] == rules[k];
  }

  lemma ConvInContext(ctx: Context, classes: seq<set<nat>>, reps: seq<nat>, s: set<nat>)
    requires IsClassesOf(ctx, classes, reps) && s <= Range(|reps|)
    ensures Conv(reps, s) <= ctx.Attributes()
  {
    RepsApart(ctx, classes, reps);
  }

  method CloseAttributes(ctx: Context) returns (closures: seq<set<nat>>)
    requires ctx.Valid()
    ensures AttributeClosures(ctx, closures)
  {
    closures := [];
    for a := 0 to |ctx.cols|
      invariant |closures| == a && forall b | 0 <= b < a :: closures[b] == ctx.Closure({b})
    {
      var c := Derivation.Close(ctx, {a});
      closures := closures + [c];
    }
  }

  /** The non-binary rules of every attribute in turn. */
  method ComputeRules(ctx: Context, premises: seq<set<nat>>) returns (rules: seq<Implication>)
    requires ctx.Valid() && Clarified(ctx)
    requires |premises| == |ctx.cols| && forall a | 0 <= a < |premises| :: premises[a] == BinaryPremises(ctx, a)
    ensures AreRules(ctx, rules, |ctx.cols|) && NoTwins(rules)
  {
    hide IsMinimalCover, AreRules, IsRuleOf, NoTwins;
    var closures := CloseAttributes(ctx);
    rules := [];
    NoRules(ctx);
    for a := 0 to |ctx.cols|
      invariant AreRules(ctx, rules, a) && NoTwins(rules) && ConcludeBelow(rules, a)
    {
      var part := ComputeNonBinaryRules(ctx, a, premises[a], closures);
      MoreRules(ctx, rules, part, a);
      NextTarget(ctx, rules, part, a);
      rules := rules + part;
    }
  }

  /** The targets so far. */
  ghost predicate ConcludeBelow(l: seq<Implication>, n: nat) {
    forall i, v | 0 <= i < |l| && v in l[i].closure :: v < n
  }

  lemma NoRules(ctx: Context)
    ensures AreRules(ctx, [], 0) && NoTwins([]) && ConcludeBelow([], 0)
  {}

  lemma NextTarget(ctx: Context, rules: seq<Implication>, part: seq<Implication>, a: nat)
    requires a < |ctx.cols| && NoTwins(rules) && NoTwins(part) && ConcludeBelow(rules, a)
    requires forall i | 0 <= i < |part| :: IsRuleOf(ctx, part[i], a)
    ensures NoTwins(rules + part) && ConcludeBelow(rules + part, a + 1)
  {
    hide IsMinimalCover;
    forall i | 0 <= i < |part| ensures part[i].closure == {a} {
      assert IsRuleOf(ctx, part[i], a);
    }
    forall i, j | 0 <= i < |rules| && 0 <= j < |part| ensures !Twins(rules[i], part[j]) {
      assert a in part[j].closure && a !in rules[i].closure;
    }
    TwinsApart(rules, part);
  }

  lemma MoreRules(ctx: Context, rules: seq<Implication>, part: seq<Implication>, a: nat)
    requires a < |ctx.cols| && AreRules(ctx, rules, a)
    requires forall i | 0 <= i < |part| :: IsRuleOf(ctx, part[i], a)
    requires forall g: set<nat> | IsMinimalCover(ctx, a, g) && |g| > 1 :: HasRule(part, g, {a})
    ensures AreRules(ctx, rules + part, a + 1)
  {
    hide IsMinimalCover, IsRuleOf;
    var l := rules + part;
    forall i | 0 <= i < |l| ensures IsRule(ctx, l[i]) {
      if i >= |rules| { assert IsRuleOf(ctx, l[i], a); }
    }
    forall target: nat, g: set<nat> | target < a + 1 && IsMinimalCover(ctx, target, g) && |g| > 1
      ensures HasRule(l, g, {target}) {
      if target < a {
        HasRuleKept(rules, l, g, {target});
      } else {
        var i :| 0 <= i < |part| && part[i].premise == g && part[i].closure == {target};
        assert l[|rules| + i] == part[i];
      }
    }
  }

  lemma Sizes(ctx: Context, binary: seq<Implication>, rules: seq<Implication>)
    requires ctx.Valid() && WellFormed(Above(ctx)) && IsBinaryBasis(ctx, binary) && AreRules(ctx, rules, |ctx.cols|)
    ensures Within(binary + rules, Range(|ctx.cols|)) && Within(binary, Range(|ctx.cols|))
      && Within(rules, Range(|ctx.cols|))
    ensures forall i | 0 <= i < |binary| :: |binary[i].premise| < 2
    ensures forall i | 0 <= i < |rules| :: |rules[i].premise| >= 2
  {
    forall i | 0 <= i < |binary|
      ensures |binary[i].premise| < 2 && binary[i].premise <= Range(|ctx.cols|)
        && binary[i].closure <= Range(|ctx.cols|) {
      BinaryIsSound(ctx, binary, i);
      assert IsFullRule(ctx, binary[i]) || exists u: nat, v: nat :: IsCoverRule(ctx, binary[i], u, v);
    }
    forall i | 0 <= i < |rules|
      ensures |rules[i].premise| >= 2 && rules[i].premise <= Range(|ctx.cols|)
        && rules[i].closure <= Range(|ctx.cols|) {
      RuleHolds(ctx, rules[i], {});
      assert IsRule(ctx, rules[i]);
    }
  }

  lemma ConvWithin(ctx: Context, clar: Context, classes: seq<set<nat>>, reps: seq<nat>, rules: seq<Implication>,
                   written: seq<Implication>)
    requires ctx.Valid() && IsClarification(ctx, clar, classes, reps) && IsConv(ctx, reps, rules, written)
    requires AreRules(clar, rules, |clar.cols|)
    ensures Within(written, ctx.Attributes()) && forall i | 0 <= i < |written| :: written[i].closure != {}
  {
    forall i | 0 <= i < |written|
      ensures written[i].premise <= ctx.Attributes() && written[i].closure <= ctx.Attributes()
        && written[i].closure != {}
    {
      ConvInContext(ctx, classes, reps, rules[i].premise);
      ConvInContext(ctx, classes, reps, rules[i].closure);
      var t: nat :| t < |clar.cols| && IsRuleOf(clar, rules[i], t);
      RepsApart(ctx, classes, reps);
      OneRep(reps, t);
    }
  }

  /** The whole computation, with minimal support 0.  The result is a sound and complete basis
      for every context.  One sweep through it reaches every closure exactly under a condition
      on the context. */
  method ComputeDBasis(ctx: Context)
      returns (basis: seq<Implication>, clar: Context, classes: seq<set<nat>>, reps: seq<nat>,
                                              ghost binary: seq<Implication>, ghost kept: seq<Implication>)
    requires ctx.Valid()
    ensures Sound(ctx, basis) && Complete(ctx, basis)
    ensures IsClarification(ctx, clar, classes, reps) && clar == Clarify(ctx)
    ensures StrictOrder(Above(clar)) && IsBinaryBasis(clar, binary) && KeepsCovers(clar, kept)
    ensures exists l :: IsConv(ctx, reps, binary + kept, l) && basis == Equivalents(ctx, classes, reps) + l
    ensures OrderedDirect(ctx, basis) <==> OneSweepIsEnough(ctx)
    ensures NoTwins(basis) && Supported(ctx, basis)
  {
    hide IsBinaryBasis, StrictOrder, IsRule, Sound, Complete, OrderedDirect, Clarified, IsConv, IsClarification,
        KeepsCovers, OneSweepIsEnough, Equivalents, IsMinimalCover, NoTwins, Supported, Picks, BackRules;
    clar, classes, reps := ClarifyContext(ctx);
    ClarifiedIsClarified(ctx, clar, classes, reps);
    ClarificationBasics(ctx, clar, classes, reps);
    var equivalences := ListEquivalences(ctx, classes, reps);
    var temp, premises := ComputeBinaryBasis(clar);
    binary := temp;
    var rules := ComputeRules(clar, premises);
    Sizes(clar, binary, rules);
    var binaryWritten, written := WriteBack(ctx, temp + rules, classes, reps, binary, rules);
    ConvWithin(ctx, clar, classes, reps, rules, written);
    WrittenOnce(ctx, classes, reps, rules, written);
    var result := BuildEBasis(ctx, written);
    kept := BackRules(reps, result);
    ResultOutcome(ctx, clar, classes, reps, binary, binaryWritten, rules, written, result);
    ClarifiedIs(ctx, clar, classes, reps);
    KeptOnce(ctx, clar, classes, reps, binary, rules, written, result);
    EachOnce(ctx, classes, reps, binary + kept, binaryWritten + result);
    basis := equivalences + binaryWritten + result;
    assert basis == Equivalents(ctx, classes, reps) + (binaryWritten + result);
  }

  lemma ClarificationBasics(ctx: Context, clar: Context, classes: seq<set<nat>>, reps: seq<nat>)
    requires IsClarification(ctx, clar, classes, reps)
    ensures clar.Valid() && IsClassesOf(ctx, classes, reps) && |classes| == |reps| == |clar.cols|
  {}
}
