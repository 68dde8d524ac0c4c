/** The reduction of the D-basis to the E-basis: without cycles among the attributes only
    the minimal covers with the smallest closures are kept.  The result is always complete;
    it is reached in one sweep exactly under the condition `InTime`. */
module EBasis {
  import opened FiniteSets
  import opened FormalContext
  import opened Implications
  import opened Graphs
  import opened Reachability
  import opened Generators
  import opened MinimalCovers
  import opened Sweeps
  import opened DBasis
  import opened Tarjan
  import Derivation

  ghost predicate Acyclic(l: seq<Implication>, n: nat) {
    forall c | IsComponent(DependencyGraph(l, n), c) :: |c| <= 1
  }

  /** A minimal cover such that no other one has a smaller closure. */
  ghost predicate IsSharpCover(ctx: Context, target: nat, g: set<nat>)
    requires target < |ctx.cols|
  {
    && IsMinimalCover(ctx, target, g) && |g| > 1
    && forall h: set<nat> | IsMinimalCover(ctx, target, h) && |h| > 1 :: !(ctx.Closure(h) < ctx.Closure(g))
  }

  /** The list keeps every sharp cover, and nothing but minimal covers. */
  ghost predicate KeepsSharp(ctx: Context, l: seq<Implication>) {
    && (forall i | 0 <= i < |l| :: IsRule(ctx, l[i]))
    && (forall target: nat, g: set<nat> | target < |ctx.cols|
      && IsSharpCover(ctx, target, g) :: HasRule(l, g, {target}))
  }

  lemma {:induction false} SharpBelow(ctx: Context, target: nat, g: set<nat>) returns (h: set<nat>)
    requires ctx.Valid() && target < |ctx.cols| && IsMinimalCover(ctx, target, g) && |g| > 1
    ensures IsSharpCover(ctx, target, h) && ctx.Closure(h) <= ctx.Closure(g)
    decreases |ctx.Closure(g)|
  {
    if k: set<nat> :| IsMinimalCover(ctx, target, k) && |k| > 1 && ctx.Closure(k) < ctx.Closure(g) {
      SubsetCard(ctx.Closure(k), ctx.Closure(g));
      h := SharpBelow(ctx, target, k);
    } else {
      h := g;
    }
  }

  // ---- completeness ----

  /** The attributes of every minimal cover rank below its target. */
  ghost predicate Ranked(ctx: Context, rank: nat -> nat) {
    forall target: nat, g: set<nat>, y: nat |
      target < |ctx.cols| && IsMinimalCover(ctx, target, g) && |g| > 1 && y in g :: rank(y) < rank(target)
  }

  lemma CoverClosure(ctx: Context, g: set<nat>, x: set<nat>, y: nat)
    requires ctx.Valid() && g <= x <= ctx.Attributes() && y in ctx.Closure(g)
    ensures y in ctx.Closure(x)
  {
    ClosureMonotone(ctx, g, x);
  }

  /** By induction along the dependencies: a set that respects the sharp covers contains
      every attribute it implies. */
  lemma {:induction false} Supplied(ctx: Context, rank: nat -> nat, kept: seq<Implication>, x: set<nat>, b: nat)
    requires ctx.Valid() && Clarified(ctx) && Ranked(ctx, rank)
    requires KeepsSharp(ctx, kept) && x <= ctx.Attributes() && Respects(kept, x) && BinaryClosure(ctx, x) == x
    requires b in ctx.Closure(x)
    ensures b in x
    decreases rank(b)
  {
    hide IsMinimalCover, BinaryClosure, Clarified;
    if b !in x {
      var g := CoverExists(ctx, x, b);
      var h := SharpBelow(ctx, b, g);
      CoverInUniverse(ctx, b, h);
      ClosureExtensive(ctx, h);
      RuleFires(ctx, kept, x, b, h);
      forall y | y in h ensures y in x {
        CoverClosure(ctx, g, x, y);
        Supplied(ctx, rank, kept, x, y);
      }
    }
  }

  lemma RuleFires(ctx: Context, kept: seq<Implication>, x: set<nat>, b: nat, h: set<nat>)
    requires KeepsSharp(ctx, kept) && Respects(kept, x) && b < |ctx.cols| && IsSharpCover(ctx, b, h)
    ensures h <= x ==> b in x
  {
    assert HasRule(kept, h, {b});
  }

  lemma CoverInUniverse(ctx: Context, target: nat, g: set<nat>)
    requires target < |ctx.cols| && IsMinimalCover(ctx, target, g)
    ensures g <= ctx.Attributes()
  {}

  lemma BinaryRespects(ctx: Context, binary: seq<Implication>, x: set<nat>)
    requires ctx.Valid() && Clarified(ctx) && x <= ctx.Attributes() && StrictOrder(Above(ctx))
      && IsBinaryBasis(ctx, binary)
    requires Respects(binary, x)
    ensures BinaryClosure(ctx, x) == x
  {
    BinarySweep(ctx, binary, x);
    SweepWithin(binary, x, x);
    BinaryClosureWithin(ctx, x);
  }

  lemma RespectsParts(l: seq<Implication>, r: seq<Implication>, x: set<nat>)
    requires Respects(l + r, x)
    ensures Respects(l, x) && Respects(r, x)
  {
    assert forall i | 0 <= i < |l| :: l[i] == (l + r)[i];
    assert forall i | 0 <= i < |r| :: r[i] == (l + r)[|l| + i];
  }

  /** Without cycles the sharp covers are enough: the reduced basis is complete. */
  lemma EBasisIsComplete(ctx: Context, binary: seq<Implication>, rank: nat -> nat, kept: seq<Implication>)
    requires ctx.Valid() && Clarified(ctx) && StrictOrder(Above(ctx)) && IsBinaryBasis(ctx, binary)
    requires Ranked(ctx, rank) && KeepsSharp(ctx, kept)
    ensures Complete(ctx, binary + kept)
  {
    forall x: set<nat> | x <= ctx.Attributes() && Respects(binary + kept, x) ensures ctx.Closure(x) == x {
      RespectsParts(binary, kept, x);
      BinaryRespects(ctx, binary, x);
      ClosureExtensive(ctx, x);
      forall b | b in ctx.Closure(x) ensures b in x {
        Supplied(ctx, rank, kept, x, b);
      }
    }
  }

  lemma BasisIsSound(ctx: Context, binary: seq<Implication>, kept: seq<Implication>)
    requires ctx.Valid() && WellFormed(Above(ctx)) && IsBinaryBasis(ctx, binary)
    requires forall i | 0 <= i < |kept| :: IsRule(ctx, kept[i])
    ensures Sound(ctx, binary + kept)
  {
    var l := binary + kept;
    forall i | 0 <= i < |l|
      ensures l[i].premise <= ctx.Attributes() && l[i].closure <= ctx.Attributes()
        && l[i].closure <= ctx.Closure(l[i].premise)
    {
      if i < |binary| {
        BinaryIsSound(ctx, binary, i);
      } else {
        RuleHolds(ctx, kept[i - |binary|], {});
      }
    }
  }

  lemma BinaryIsSound(ctx: Context, binary: seq<Implication>, i: nat)
    requires ctx.Valid() && WellFormed(Above(ctx)) && IsBinaryBasis(ctx, binary) && i < |binary|
    ensures binary[i].premise <= ctx.Attributes() && binary[i].closure <= ctx.Attributes()
    ensures binary[i].closure <= ctx.Closure(binary[i].premise)
  {
    var f := binary[i];
    if !IsFullRule(ctx, f) {
      var u: nat, v: nat :| IsCoverRule(ctx, f, u, v);
      assert ctx.Extent({u}) == ctx.cols[u] && Implies(ctx, u, v);
    }
  }

  // ---- when one sweep is enough ----

  ghost predicate HasTarget(f: Implication, target: nat) {
    f.closure == {target}
  }

  /** The rules are grouped by target, in increasing order. */
  ghost predicate Ascending(l: seq<Implication>) {
    forall i, j, a: nat, b: nat | 0 <= i <= j < |l| && HasTarget(l[i], a) && HasTarget(l[j], b) :: a <= b
  }

  /** Each attribute of h follows from a single attribute of g, or from all of g and is
      numbered below the target, so that its own rules come first. */
  ghost predicate Ready(ctx: Context, g: set<nat>, h: set<nat>, target: nat)
    requires g <= ctx.Attributes()
  {
    forall y | y in h :: y in BinaryClosure(ctx, g) || (y < target && y in ctx.Closure(g))
  }

  ghost predicate ReplacedInTime(ctx: Context, kept: seq<Implication>, g: set<nat>, target: nat)
    requires g <= ctx.Attributes()
  {
    exists i :: 0 <= i < |kept| && HasTarget(kept[i], target) && Ready(ctx, g, kept[i].premise, target)
  }

  /** Every minimal cover that was dropped has a kept one that is ready in time. */
  ghost predicate InTime(ctx: Context, kept: seq<Implication>) {
    forall target: nat, g: set<nat> |
      target < |ctx.cols| && IsMinimalCover(ctx, target, g) && |g| > 1 && !HasRule(kept, g, {target}) ::
      ReplacedInTime(ctx, kept, g, target)
  }

  /** Kept covers are their own replacement. */
  lemma KeptIsReady(ctx: Context, kept: seq<Implication>, g: set<nat>, target: nat)
    requires ctx.Valid() && g <= ctx.Attributes() && HasRule(kept, g, {target})
    ensures ReplacedInTime(ctx, kept, g, target)
  {
    var i :| 0 <= i < |kept| && kept[i].premise == g && kept[i].closure == {target};
    BinaryClosureWithin(ctx, g);
    assert Ready(ctx, g, kept[i].premise, target) && HasTarget(kept[i], target);
  }

  lemma RuleShape(ctx: Context, f: Implication, target: nat)
    requires IsRule(ctx, f) && HasTarget(f, target)
    ensures target < |ctx.cols| && IsRuleOf(ctx, f, target) && target !in f.premise
  {
    var t: nat :| t < |ctx.cols| && IsRuleOf(ctx, f, t);
    assert t in f.closure && target in f.closure;
  }

  /** The first time a sweep adds x. */
  lemma {:induction false} FirstAdded(l: seq<Implication>, s: set<nat>, x: nat) returns (j: nat)
    requires x in Sweep(l, s) && x !in s
    ensures j < |l| && x in l[j].closure && l[j].premise <= Sweep(l[..j], s)
  {
    var rest := l[..|l| - 1];
    if x in Sweep(rest, s) {
      j := FirstAdded(rest, s, x);
      assert rest[..j] == l[..j];
    } else {
      j := |l| - 1;
    }
  }

  /** A cover whose sweep succeeds is replaced in time. */
  lemma DirectNeedsReady(ctx: Context, kept: seq<Implication>, g: set<nat>, target: nat)
    requires ctx.Valid() && Ascending(kept) && forall i | 0 <= i < |kept| :: IsRule(ctx, kept[i])
    requires g <= ctx.Attributes() && BinaryClosure(ctx, g) <= ctx.Attributes()
    requires target in Sweep(kept, BinaryClosure(ctx, g)) && target !in BinaryClosure(ctx, g)
    ensures ReplacedInTime(ctx, kept, g, target)
  {
    hide Context.Valid, IsRule, Context.Attributes, Sweep, Context.Closure, HasTarget, IsFull;
    var c := BinaryClosure(ctx, g);
    var j := FirstAdded(kept, c, target);
    var f := kept[j];
    SingleTarget(ctx, f, target);
    RuleShape(ctx, f, target);
    forall y | y in f.premise && y !in c ensures y < target && y in ctx.Closure(g) {
      var i := FirstAdded(kept[..j], c, y);
      SingleTarget(ctx, kept[i], y);
      BinaryClosureWithin(ctx, g);
      assert forall k | 0 <= k < j :: IsRule(ctx, kept[..j][k]);
      RulesWithin(ctx, kept[..j], g, c);
      assert y <= target;
    }
    assert Ready(ctx, g, f.premise, target);
  }

  lemma SingleTarget(ctx: Context, f: Implication, x: nat)
    requires IsRule(ctx, f) && x in f.closure
    ensures HasTarget(f, x)
  {
    var t: nat :| t < |ctx.cols| && IsRuleOf(ctx, f, t);
  }

  /** The rule that derives b, all of whose premise is there or comes earlier. */
  lemma Replacement(ctx: Context, kept: seq<Implication>, s: set<nat>, b: nat) returns (i: nat)
    requires ctx.Valid() && Clarified(ctx) && InTime(ctx, kept)
    requires s <= ctx.Attributes() && BinaryClosure(ctx, s) == s && b in ctx.Closure(s) && b !in s
    ensures i < |kept| && HasTarget(kept[i], b)
    ensures forall y | y in kept[i].premise :: y in s || (y < b && y in ctx.Closure(s))
  {
    hide IsMinimalCover, BinaryClosure, Clarified, HasRule;
    var g := CoverExists(ctx, s, b);
    if HasRule(kept, g, {b}) { KeptIsReady(ctx, kept, g, b); }
    i :| 0 <= i < |kept| && HasTarget(kept[i], b) && Ready(ctx, g, kept[i].premise, b);
    BinaryClosureMonotone(ctx, g, s);
    ClosureMonotone(ctx, g, s);
  }

  ghost predicate OnlyAbove(l: seq<Implication>, k: nat, b: nat) {
    forall j, a: nat | k <= j < |l| && HasTarget(l[j], a) :: a > b
  }

  /** By induction on the target: before the rules of later targets are reached, it is there. */
  lemma {:induction false} ThereInTime(ctx: Context, kept: seq<Implication>, s: set<nat>, b: nat, k: nat)
    requires ctx.Valid() && Clarified(ctx) && Ascending(kept) && InTime(ctx, kept)
    requires s <= ctx.Attributes() && BinaryClosure(ctx, s) == s && b in ctx.Closure(s)
    requires k <= |kept| && OnlyAbove(kept, k, b)
    ensures b in Sweep(kept[..k], s)
    decreases b
  {
    hide InTime, BinaryClosure, Clarified;
    SweepPrefix(kept[..k], 0, s);
    if b !in s {
      var i := Replacement(ctx, kept, s, b);
      SweepPrefix(kept[..i], 0, s);
      forall y | y in kept[i].premise ensures y in Sweep(kept[..i], s) {
        if y !in s {
          assert OnlyAbove(kept, i, y);
          ThereInTime(ctx, kept, s, y, i);
        }
      }
      assert i < k;
      assert kept[..k][..i] == kept[..i] && kept[..k][i] == kept[i];
      SweepFires(kept[..k], i, s);
    }
  }

  /** A cover of an attribute reaches it only by a rule of its own. */
  lemma CoverBeyondBinary(ctx: Context, target: nat, g: set<nat>)
    requires ctx.Valid() && target < |ctx.cols| && IsMinimalCover(ctx, target, g) && |g| > 1
    ensures target in ctx.Closure(g) && target !in BinaryClosure(ctx, g)
  {
    var premises := BinaryPremises(ctx, target);
    assert Generates(ctx, target, g);
    EmptyGenerator(ctx, target, premises, g);
    assert !IsFull(ctx, target);
    forall a | a in g ensures !(ctx.cols[a] <= ctx.cols[target]) {
      assert a !in premises && a != target;
    }
  }

  /** The exact condition: one sweep through the reduced basis reaches every closure if and
      only if every dropped minimal cover has a kept one that is ready in time. */
  lemma DirectIffInTime(ctx: Context, binary: seq<Implication>, kept: seq<Implication>)
    requires ctx.Valid() && Clarified(ctx) && StrictOrder(Above(ctx)) && IsBinaryBasis(ctx, binary)
    requires Ascending(kept) && forall i | 0 <= i < |kept| :: IsRule(ctx, kept[i])
    ensures OrderedDirect(ctx, binary + kept) <==> InTime(ctx, kept)
  {
    if OrderedDirect(ctx, binary + kept) {
      forall target: nat, g: set<nat> |
        target < |ctx.cols| && IsMinimalCover(ctx, target, g) && |g| > 1 && !HasRule(kept, g, {target})
        ensures ReplacedInTime(ctx, kept, g, target)
      {
        CoverInUniverse(ctx, target, g);
        CoverBeyondBinary(ctx, target, g);
        BinaryClosureWithin(ctx, g);
        DirectSplit(ctx, binary, kept, g);
        DirectNeedsReady(ctx, kept, g, target);
      }
    }
    if InTime(ctx, kept) {
      forall s: set<nat> | s <= ctx.Attributes() ensures Sweep(binary + kept, s) == ctx.Closure(s) {
        InTimeReaches(ctx, binary, kept, s);
      }
    }
  }

  lemma DirectSplit(ctx: Context, binary: seq<Implication>, kept: seq<Implication>, g: set<nat>)
    requires ctx.Valid() && Clarified(ctx) && StrictOrder(Above(ctx)) && IsBinaryBasis(ctx, binary)
    requires g <= ctx.Attributes() && OrderedDirect(ctx, binary + kept)
    ensures Sweep(kept, BinaryClosure(ctx, g)) == ctx.Closure(g)
  {
    SweepConcat(binary, kept, g);
    BinarySweep(ctx, binary, g);
  }

  lemma InTimeReaches(ctx: Context, binary: seq<Implication>, kept: seq<Implication>, s: set<nat>)
    requires ctx.Valid() && Clarified(ctx) && StrictOrder(Above(ctx)) && IsBinaryBasis(ctx, binary)
    requires Ascending(kept) && (forall i | 0 <= i < |kept| :: IsRule(ctx, kept[i])) && InTime(ctx, kept)
    requires s <= ctx.Attributes()
    ensures Sweep(binary + kept, s) == ctx.Closure(s)
  {
    hide InTime, Clarified, StrictOrder, IsBinaryBasis, IsRule;
    var c := BinaryClosure(ctx, s);
    SweepConcat(binary, kept, s);
    BinarySweep(ctx, binary, s);
    BinaryClosureWithin(ctx, s);
    BinaryClosureIdempotent(ctx, s);
    SameClosure(ctx, s);
    RulesWithin(ctx, kept, s, c);
    hide BinaryClosure;
    forall b | b in ctx.Closure(c) ensures b in Sweep(kept, c) {
      ThereInTime(ctx, kept, c, b, |kept|);
      assert kept[..|kept|] == kept;
    }
  }

  // ---- the reduction ----

  ghost predicate InRange(l: seq<Implication>, group: seq<nat>) {
    forall k | 0 <= k < |group| :: group[k] < |l|
  }

  /** Some other rule of the group has a premise with a smaller closure. */
  ghost predicate Dominated(ctx: Context, l: seq<Implication>, group: seq<nat>, i: nat)
    requires i < |l| && InRange(l, group)
  {
    exists j :: j in group && j != i && |l[j].premise| > 1 && ctx.Closure(l[j].premise) < ctx.Closure(l[i].premise)
  }

  ghost predicate Survives(ctx: Context, l: seq<Implication>, group: seq<nat>, i: nat)
    requires i < |l| && InRange(l, group)
  {
    |l[i].premise| <= 1 || !Dominated(ctx, l, group, i)
  }

  /** The numbers of the implications whose conclusion starts with a, in order. */
  ghost predicate IsGroup(l: seq<Implication>, group: seq<nat>, a: nat, n: nat) {
    && NoRepeats(group) && forall i: nat :: i in group <==> i < n && i < |l| && IsFirst(a, l[i].closure)
  }

  method GroupByConclusion(l: seq<Implication>, n: nat) returns (groups: seq<seq<nat>>)
    requires Within(l, Range(n))
    ensures |groups| == n && forall a | 0 <= a < n :: IsGroup(l, groups[a], a, |l|)
  {
    groups := seq(n, a => []);
    for i := 0 to |l|
      invariant |groups| == n && forall a | 0 <= a < n :: IsGroup(l, groups[a], a, i)
    {
      if l[i].closure != {} {
        var x := Derivation.FirstIn(l[i].closure, n);
        groups := groups[x := groups[x] + [i]];
      }
    }
  }

  /** f is implication i of the group, and it survives. */
  ghost predicate IsSurvivor(ctx: Context, l: seq<Implication>, group: seq<nat>, f: Implication, i: nat)
    requires InRange(l, group)
  {
    i in group && l[i] == f && Survives(ctx, l, group, i)
  }

  ghost predicate OnlySurvivors(ctx: Context, l: seq<Implication>, group: seq<nat>, kept: seq<Implication>)
    requires InRange(l, group)
  {
    forall k | 0 <= k < |kept| :: IsOneOf(ctx, l, group, kept[k])
  }

  ghost predicate IsOneOf(ctx: Context, l: seq<Implication>, group: seq<nat>, f: Implication)
    requires InRange(l, group)
  {
    exists i: nat :: IsSurvivor(ctx, l, group, f, i)
  }

  lemma OneMore(ctx: Context, l: seq<Implication>, group: seq<nat>, kept: seq<Implication>, i: nat)
    requires InRange(l, group) && OnlySurvivors(ctx, l, group, kept) && i in group && Survives(ctx, l, group, i)
    ensures OnlySurvivors(ctx, l, group, kept + [l[i]])
  {
    assert IsSurvivor(ctx, l, group, l[i], i);
  }

  /** The implications kept are those at the given places of the list, each place taken once. */
  ghost predicate Picks(l: seq<Implication>, kept: seq<Implication>, places: seq<nat>) {
    && |places| == |kept| && NoRepeats(places) && InRange(l, places)
    && forall k | 0 <= k < |kept| :: kept[k] == l[places[k]]
  }

  lemma PickOne(l: seq<Implication>, kept: seq<Implication>, places: seq<nat>, i: nat)
    requires Picks(l, kept, places) && i < |l| && i !in places
    ensures Picks(l, kept + [l[i]], places + [i])
  {
    assert forall k | 0 <= k < |places| :: places[k] in places;
  }

  lemma PickMore(l: seq<Implication>, kept: seq<Implication>, places: seq<nat>, more: seq<Implication>,
                 others: seq<nat>)
    requires Picks(l, kept, places) && Picks(l, more, others) && forall i | i in others :: i !in places
    ensures Picks(l, kept + more, places + others)
  {
    assert forall k | 0 <= k < |places| :: places[k] in places;
    assert forall k | 0 <= k < |others| :: others[k] in others;
  }

  lemma PicksAreApart(l: seq<Implication>, kept: seq<Implication>, places: seq<nat>)
    requires Picks(l, kept, places) && NoTwins(l)
    ensures NoTwins(kept)
  {
    forall i, j | 0 <= i < j < |kept| ensures !Twins(kept[i], kept[j]) {
      assert places[i] != places[j];
      if places[j] < places[i] { assert !Twins(l[places[j]], l[places[i]]); }
    }
  }

  /** The groups below a have been picked from. */
  ghost predicate FromGroups(l: seq<Implication>, places: seq<nat>, a: nat)
    requires InRange(l, places)
  {
    forall i, b: nat | i in places && i < |l| && IsFirst(b, l[i].closure) :: b < a
  }

  lemma NextGroup(l: seq<Implication>, kept: seq<Implication>, places: seq<nat>, group: seq<nat>, a: nat,
                  more: seq<Implication>, others: seq<nat>)
    requires Picks(l, kept, places) && FromGroups(l, places, a) && IsGroup(l, group, a, |l|)
    requires Picks(l, more, others) && forall i | i in others :: i in group
    ensures Picks(l, kept + more, places + others) && FromGroups(l, places + others, a + 1)
  {
    forall i | i in others ensures i !in places {
      assert i in group;
    }
    PickMore(l, kept, places, more, others);
    forall i, b: nat | i in places + others && i < |l| && IsFirst(b, l[i].closure) ensures b < a + 1 {
      if i in others { assert i in group; }
    }
  }

  /** Every survivor with at most one premise, as far as the first n of the group go. */
  ghost predicate SinglesKept(l: seq<Implication>, group: seq<nat>, kept: seq<Implication>, n: nat)
    requires InRange(l, group) && n <= |group|
  {
    forall k | 0 <= k < n && |l[group[k]].premise| <= 1 :: l[group[k]] in kept
  }

  ghost predicate OthersKept(ctx: Context, l: seq<Implication>, group: seq<nat>, indices: seq<nat>,
                             kept: seq<Implication>, n: nat)
    requires InRange(l, group) && InRange(l, indices) && n <= |indices|
  {
    forall k | 0 <= k < n && !Dominated(ctx, l, group, indices[k]) :: l[indices[k]] in kept
  }

  /** The numbers in the group of the implications with two premises or more. */
  ghost predicate AreOthers(l: seq<Implication>, group: seq<nat>, indices: seq<nat>, n: nat)
    requires n <= |group|
  {
    NoRepeats(indices) && forall i :: i in indices <==> i in group[..n] && i < |l| && |l[i].premise| > 1
  }

  /** Whether the closure of indices[i] strictly contains that of another one. */
  method IsDominated(ctx: Context, l: seq<Implication>, ghost group: seq<nat>, indices: seq<nat>, cls: seq<set<nat>>,
                     i: nat)
      returns (dominated: bool)
    requires InRange(l, group) && AreOthers(l, group, indices, |group|) && InRange(l, indices) && i < |indices| == |cls|
    requires forall k | 0 <= k < |indices| :: cls[k] == ctx.Closure(l[indices[k]].premise)
    ensures dominated <==> Dominated(ctx, l, group, indices[i])
  {
    assert group[..|group|] == group;
    for j := 0 to |indices|
      invariant forall k | 0 <= k < j && k != i :: !(cls[k] < cls[i])
    {
      if i == j {
        continue;
      }
      if !(cls[i] <= cls[j]) && cls[j] <= cls[i] {
        assert indices[j] in indices && indices[j] != indices[i];
        return true;
      }
    }
    dominated := false;
    forall j | j in group && j != indices[i] && |l[j].premise| > 1
      ensures !(ctx.Closure(l[j].premise) < ctx.Closure(l[indices[i]].premise)) {
      assert j in indices;
      var k :| 0 <= k < |indices| && indices[k] == j;
      assert !(cls[k] < cls[i]);
    }
  }

  /** The implications of one group that survive, those with at most one premise first. */
  method KeepGroup(ctx: Context, l: seq<Implication>, group: seq<nat>)
      returns (kept: seq<Implication>, ghost places: seq<nat>)
    requires ctx.Valid() && Within(l, ctx.Attributes()) && InRange(l, group) && NoRepeats(group)
    ensures OnlySurvivors(ctx, l, group, kept)
    ensures forall i | i in group && Survives(ctx, l, group, i) :: l[i] in kept
    ensures Picks(l, kept, places) && forall i | i in places :: i in group
  {
    hide Dominated, Context.Valid, Picks;
    kept, places := [], [];
    NothingPicked(l);
    var indices: seq<nat> := [];
    for gi := 0 to |group|
      invariant OnlySurvivors(ctx, l, group, kept) && SinglesKept(l, group, kept, gi)
      invariant AreOthers(l, group, indices, gi) && InRange(l, indices)
      invariant Picks(l, kept, places) && forall i | i in places :: i in group[..gi] && i < |l| && |l[i].premise| <= 1
    {
      var i := group[gi];
      assert i in group && i !in group[..gi] && group[..gi + 1] == group[..gi] + [i];
      if |l[i].premise| <= 1 {
        OneMore(ctx, l, group, kept, i);
        PickOne(l, kept, places, i);
        kept, places := kept + [l[i]], places + [i];
      } else {
        indices := indices + [i];
      }
    }
    assert group[..|group|] == group;
    kept, places := KeepOthers(ctx, l, group, indices, kept, places);
    forall i | i in group && Survives(ctx, l, group, i) ensures l[i] in kept {
      KeptEither(ctx, l, group, indices, kept, i);
    }
  }

  lemma KeptEither(ctx: Context, l: seq<Implication>, group: seq<nat>, indices: seq<nat>, kept: seq<Implication>,
                   i: nat)
    requires InRange(l, group) && InRange(l, indices) && AreOthers(l, group, indices, |group|)
    requires SinglesKept(l, group, kept, |group|) && OthersKept(ctx, l, group, indices, kept, |indices|)
    requires i in group && Survives(ctx, l, group, i)
    ensures l[i] in kept
  {
    assert group[..|group|] == group;
    if |l[i].premise| <= 1 {
      var k :| 0 <= k < |group| && group[k] == i;
    } else {
      assert i in indices;
      var k :| 0 <= k < |indices| && indices[k] == i;
    }
  }

  lemma NothingPicked(l: seq<Implication>)
    ensures Picks(l, [], [])
  {}

  method KeepOthers(ctx: Context, l: seq<Implication>, group: seq<nat>, indices: seq<nat>, kept0: seq<Implication>,
                    ghost places0: seq<nat>)
      returns (kept: seq<Implication>, ghost places: seq<nat>)
    requires ctx.Valid() && Within(l, ctx.Attributes()) && InRange(l, group) && InRange(l, indices)
    requires AreOthers(l, group, indices, |group|) && OnlySurvivors(ctx, l, group, kept0)
      && SinglesKept(l, group, kept0, |group|)
    requires Picks(l, kept0, places0) && forall i | i in places0 :: i in group && |l[i].premise| <= 1
    ensures OnlySurvivors(ctx, l, group, kept) && SinglesKept(l, group, kept, |group|)
    ensures OthersKept(ctx, l, group, indices, kept, |indices|)
    ensures Picks(l, kept, places) && forall i | i in places :: i in group
  {
    hide Dominated, Picks;
    kept, places := kept0, places0;
    var cls := [];
    for gi := 0 to |indices|
      invariant |cls| == gi && forall k | 0 <= k < gi :: cls[k] == ctx.Closure(l[indices[k]].premise)
    {
      assert indices[gi] in indices;
      var c := Derivation.Close(ctx, l[indices[gi]].premise);
      cls := cls + [c];
    }
    for i := 0 to |indices|
      invariant OnlySurvivors(ctx, l, group, kept) && SinglesKept(l, group, kept, |group|)
      invariant OthersKept(ctx, l, group, indices, kept, i)
      invariant Picks(l, kept, places) && forall p | p in places ::
        p in group && (|l[p].premise| <= 1 || p in indices[..i])
    {
      assert group[..|group|] == group && indices[i] in indices && indices[..i + 1] == indices[..i] + [indices[i]];
      var dominated := |indices| > 1;
      if dominated {
        dominated := IsDominated(ctx, l, group, indices, cls, i);
      } else {
        AloneSurvives(ctx, l, group, indices, i);
      }
      if !dominated {
        OneMore(ctx, l, group, kept, indices[i]);
        PickOne(l, kept, places, indices[i]);
        kept, places := kept + [l[indices[i]]], places + [indices[i]];
      }
    }
  }

  /** A single candidate needs no comparison. */
  lemma AloneSurvives(ctx: Context, l: seq<Implication>, group: seq<nat>, indices: seq<nat>, i: nat)
    requires InRange(l, group) && InRange(l, indices) && AreOthers(l, group, indices, |group|) && i < |indices| <= 1
    ensures !Dominated(ctx, l, group, indices[i])
  {
    assert group[..|group|] == group;
    forall j | j in group && j != indices[i] ensures |l[j].premise| <= 1 {
      assert j !in indices;
    }
  }

  // ---- the whole reduction ----

  /** Implication f of the list survives within the group of its first conclusion. */
  ghost predicate Chosen(ctx: Context, l: seq<Implication>, f: Implication, a: nat) {
    exists i: nat :: IsChosen(ctx, l, f, a, i)
  }

  ghost predicate IsChosen(ctx: Context, l: seq<Implication>, f: Implication, a: nat, i: nat) {
    i < |l| && l[i] == f && IsFirst(a, f.closure) && (|f.premise| <= 1 || !Beaten(ctx, l, i, a))
  }

  /** Another implication with the same first conclusion has a premise of smaller closure. */
  ghost predicate Beaten(ctx: Context, l: seq<Implication>, i: nat, a: nat)
    requires i < |l|
  {
    exists j: nat :: j < |l| && j != i && IsFirst(a, l[j].closure) && |l[j].premise| > 1
      && ctx.Closure(l[j].premise) < ctx.Closure(l[i].premise)
  }

  lemma BeatenInGroup(ctx: Context, l: seq<Implication>, group: seq<nat>, a: nat, i: nat)
    requires IsGroup(l, group, a, |l|) && InRange(l, group) && i in group
    ensures i < |l| && (Beaten(ctx, l, i, a) <==> Dominated(ctx, l, group, i))
  {
    if Dominated(ctx, l, group, i) {
      var j :| j in group && j != i && |l[j].premise| > 1 && ctx.Closure(l[j].premise) < ctx.Closure(l[i].premise);
    }
  }

  ghost predicate InSomeGroup(ctx: Context, l: seq<Implication>, f: Implication, n: nat) {
    exists a: nat :: a < n && Chosen(ctx, l, f, a)
  }

  /** The chosen implications of the groups below n, group after group. */
  ghost predicate Grouped(ctx: Context, l: seq<Implication>, kept: seq<Implication>, n: nat) {
    && (forall k | 0 <= k < |kept| :: InSomeGroup(ctx, l, kept[k], n))
    && (forall i, j, a: nat, b: nat | 0 <= i <= j < |kept| && IsFirst(a, kept[i].closure)
      && IsFirst(b, kept[j].closure) :: a <= b)
    && (forall f, a: nat | a < n && Chosen(ctx, l, f, a) :: f in kept)
  }

  lemma GroupAppended(ctx: Context, l: seq<Implication>, group: seq<nat>, a: nat, kept: seq<Implication>,
                      more: seq<Implication>)
    requires Grouped(ctx, l, kept, a) && IsGroup(l, group, a, |l|) && InRange(l, group)
    requires OnlySurvivors(ctx, l, group, more) && forall i | i in group && Survives(ctx, l, group, i) :: l[i] in more
    ensures Grouped(ctx, l, kept + more, a + 1)
  {
    hide Beaten, Dominated;
    forall f ensures f in more <==> Chosen(ctx, l, f, a) {
      if f in more {
        var k :| 0 <= k < |more| && more[k] == f;
        assert IsOneOf(ctx, l, group, more[k]);
        var i: nat :| IsSurvivor(ctx, l, group, more[k], i);
        BeatenInGroup(ctx, l, group, a, i);
        assert IsChosen(ctx, l, f, a, i);
      }
      if Chosen(ctx, l, f, a) {
        var i: nat :| IsChosen(ctx, l, f, a, i);
        assert i in group;
        BeatenInGroup(ctx, l, group, a, i);
      }
    }
    hide IsChosen;
    AppendedGroups(ctx, l, a, kept, more);
  }

  lemma ChosenFirst(ctx: Context, l: seq<Implication>, f: Implication, a: nat)
    requires Chosen(ctx, l, f, a)
    ensures IsFirst(a, f.closure)
  {}

  lemma AppendedGroups(ctx: Context, l: seq<Implication>, a: nat, kept: seq<Implication>, more: seq<Implication>)
    requires Grouped(ctx, l, kept, a) && forall f :: f in more <==> Chosen(ctx, l, f, a)
    ensures Grouped(ctx, l, kept + more, a + 1)
  {
    hide Chosen;
    var kept' := kept + more;
    forall k | 0 <= k < |kept'| ensures InSomeGroup(ctx, l, kept'[k], a + 1) {
      if k >= |kept| {
        assert kept'[k] in more;
      } else {
        assert InSomeGroup(ctx, l, kept[k], a);
      }
    }
    forall i, j, b: nat, c: nat | 0 <= i <= j < |kept'| && IsFirst(b, kept'[i].closure) && IsFirst(c, kept'[j].closure)
      ensures b <= c
    {
      FirstBound(ctx, l, a, kept, more, i, b);
      FirstBound(ctx, l, a, kept, more, j, c);
    }
    forall f, b: nat | b < a + 1 && Chosen(ctx, l, f, b) ensures f in kept' {
      assert b < a || b == a;
    }
  }

  lemma FirstBound(ctx: Context, l: seq<Implication>, a: nat, kept: seq<Implication>, more: seq<Implication>, i: nat,
                   b: nat)
    requires Grouped(ctx, l, kept, a) && (forall f :: f in more <==> Chosen(ctx, l, f, a))
    requires i < |kept + more| && IsFirst(b, (kept + more)[i].closure)
    ensures if i < |kept| then b < a else b == a
  {
    hide Chosen;
    if i < |kept| {
      assert InSomeGroup(ctx, l, kept[i], a);
      var c: nat :| c < a && Chosen(ctx, l, kept[i], c);
      ChosenFirst(ctx, l, kept[i], c);
    } else {
      assert (kept + more)[i] in more;
      ChosenFirst(ctx, l, (kept + more)[i], a);
    }
  }

  /** Unchanged if there is a cycle; otherwise the surviving implications, group by group. */
  method BuildEBasis(ctx: Context, l: seq<Implication>) returns (result: seq<Implication>)
    requires ctx.Valid() && Within(l, ctx.Attributes())
    requires forall i | 0 <= i < |l| && |l[i].premise| > 1 :: l[i].closure != {}
    ensures if Acyclic(l, |ctx.cols|) then Grouped(ctx, l, result, |ctx.cols|) else result == l
    ensures exists places :: Picks(l, result, places)
    ensures NoTwins(l) ==> NoTwins(result)
  {
    hide Picks, Grouped, NoTwins;
    var cycles := FindDCycles(l, |ctx.cols|);
    if |cycles| > 0 {
      assert cycles[0] in cycles;
      AllPicked(l);
      return l;
    }
    var groups := GroupByConclusion(l, |ctx.cols|);
    result := [];
    ghost var places := [];
    NothingPicked(l);
    NothingGrouped(ctx, l);
    for a := 0 to |ctx.cols|
      invariant Grouped(ctx, l, result, a) && Picks(l, result, places) && InRange(l, places) && FromGroups(l, places, a)
    {
      assert forall k | 0 <= k < |groups[a]| :: groups[a][k] in groups[a];
      var kept;
      ghost var others;
      kept, others := KeepGroup(ctx, l, groups[a]);
      GroupAppended(ctx, l, groups[a], a, result, kept);
      NextGroup(l, result, places, groups[a], a, kept, others);
      PicksInRange(l, result + kept, places + others);
      result, places := result + kept, places + others;
    }
    if NoTwins(l) { PicksAreApart(l, result, places); }
  }

  lemma NothingGrouped(ctx: Context, l: seq<Implication>)
    ensures Grouped(ctx, l, [], 0)
  {}

  lemma PicksInRange(l: seq<Implication>, kept: seq<Implication>, places: seq<nat>)
    requires Picks(l, kept, places)
    ensures InRange(l, places)
  {}

  lemma AllPicked(l: seq<Implication>)
    ensures exists places :: Picks(l, l, places)
  {
    var places := seq(|l|, i => i);
    assert Picks(l, l, places);
  }
}
