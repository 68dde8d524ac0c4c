/** LinCbO in its recursive form: a Close-by-One search over the intents and the
    pseudo-intents, and the proof that it lists the Duquenne-Guigues basis. */
module LinCboReference {
  import opened FormalContext
  import opened Implications

  /** p and b have the same attributes below y. */
  ghost predicate Agrees(p: set<nat>, b: set<nat>, y: int) {
    forall a: nat | a < y :: a in p <==> a in b
  }

  /** The sets that the call for (b, y) is responsible for. */
  ghost predicate InRegion(p: set<nat>, b: set<nat>, y: int) {
    b <= p && Agrees(p, b, y)
  }

  /** Below y, p adds nothing to b. */
  ghost predicate AddsNothingBelow(p: set<nat>, b: set<nat>, y: int) {
    forall a: nat | a < y && a in p :: a in b
  }

  ghost predicate Node(ctx: Context, l: seq<Implication>, b: set<nat>, y: int) {
    && ctx.Valid()
    && Within(l, ctx.Attributes())
    && b <= ctx.Attributes()
    && -1 <= y < |ctx.cols|
    && (y >= 0 ==> y in b)
  }

  /** One call of the recursive search: the list of implications after the call. */
  ghost function Step(ctx: Context, l: seq<Implication>, b: set<nat>, y: int): (r: seq<Implication>)
    requires Node(ctx, l, b, y)
    ensures l <= r && Within(r, ctx.Attributes())
    decreases |ctx.cols| - y, ctx.Attributes() - b, 1, 0
  {
    var d := Saturate(l, ctx.Attributes(), b);
    if !AddsNothingBelow(d, b, y) then l
    else
      var c := ctx.Closure(d);
      ClosureExtensive(ctx, d);
      if c != d then
        var l' := l + [Implication(d, c, ctx.Extent(d))];
        if Agrees(d, c, y + 1) then
          assert ctx.Attributes() - c < ctx.Attributes() - b by { StrictlyFewer(ctx.Attributes(), b, d, c); }
          Step(ctx, l', c, y)
        else l'
      else
        assert ctx.Attributes() - c <= ctx.Attributes() - b;
        Children(ctx, l, c, y, |ctx.cols|)
  }

  /** The loop over the attributes i-1, ..., y+1 below the intent c. */
  ghost function Children(ctx: Context, l: seq<Implication>, c: set<nat>, y: int, i: int): (r: seq<Implication>)
    requires Node(ctx, l, c, y) && y < i <= |ctx.cols|
    ensures l <= r && Within(r, ctx.Attributes())
    decreases |ctx.cols| - y, ctx.Attributes() - c, 0, i
  {
    if i == y + 1 then l
    else if i - 1 in c then Children(ctx, l, c, y, i - 1)
    else Children(ctx, Step(ctx, l, c + {i - 1}, i - 1), c, y, i - 1)
  }

  /** The linear closure of b adds an attribute below y: the call returns at once. */
  ghost predicate CutAtOnce(ctx: Context, l: seq<Implication>, b: set<nat>, y: int)
    requires Within(l, ctx.Attributes()) && b <= ctx.Attributes()
  {
    exists a: nat :: a < y && a !in b && a in Saturate(l, ctx.Attributes(), b)
  }

  lemma CutStep(ctx: Context, l: seq<Implication>, b: set<nat>, y: int)
    requires Node(ctx, l, b, y) && CutAtOnce(ctx, l, b, y)
    ensures Step(ctx, l, b, y) == l
  {
    assert !AddsNothingBelow(Saturate(l, ctx.Attributes(), b), b, y);
  }

  lemma StrictlyFewer(u: set<nat>, b: set<nat>, d: set<nat>, c: set<nat>)
    requires b <= d <= c <= u && c != d
    ensures u - c < u - b
  {
    var a :| a in c && a !in d;
    assert a in u - b && a !in u - c;
  }

  /** The whole search. */
  ghost function Search(ctx: Context): seq<Implication>
    requires ctx.Valid()
  {
    Step(ctx, [], {}, -1)
  }

  // ---- correctness ----

  /** Every pseudo-intent that the call for (b, y) needs without being responsible for
      it is listed already. */
  ghost predicate Earlier(ctx: Context, l: seq<Implication>, b: set<nat>, y: int) {
    forall p: set<nat> | Pseudo(ctx, p) && !(b <= p) && AddsNothingBelow(p, b, y) :: Emitted(l, p)
  }

  ghost predicate Good(ctx: Context, l: seq<Implication>) {
    OnlyPseudo(ctx, l) && DistinctPremises(l)
  }

  /** Every pseudo-intent of the region is listed, and everything listed since
      position `start` is in the region. */
  ghost predicate RegionListed(ctx: Context, r: seq<Implication>, start: nat, b: set<nat>, y: int) {
    && (forall p: set<nat> | Pseudo(ctx, p) && InRegion(p, b, y) :: Emitted(r, p))
    && (forall k | start <= k < |r| :: InRegion(r[k].premise, b, y))
  }

  lemma EmittedStays(l: seq<Implication>, r: seq<Implication>, p: set<nat>)
    requires l <= r && Emitted(l, p)
    ensures Emitted(r, p)
  {
    var i :| 0 <= i < |l| && l[i].premise == p;
    assert r[i].premise == p;
  }

  /** A stable set that contains b but not its closure under l is itself listed. */
  lemma MissedIsListed(ctx: Context, l: seq<Implication>, b: set<nat>, p: set<nat>)
    requires ctx.Valid() && OnlyPseudo(ctx, l) && Within(l, ctx.Attributes()) && b <= ctx.Attributes()
    requires Pseudo(ctx, p) && b <= p && !(Saturate(l, ctx.Attributes(), b) <= p)
    ensures Emitted(l, p)
  {
    SaturateIsLeast(l, ctx.Attributes(), b);
    assert !Respects(l, p);
    var i := ViolatedIn(l, p);
    assert !(l[i].premise < p);
  }

  /** The closure of b under the list is an intent or a pseudo-intent. */
  lemma SaturatedIsStable(ctx: Context, l: seq<Implication>, b: set<nat>, y: int)
    requires Node(ctx, l, b, y) && OnlyPseudo(ctx, l) && Earlier(ctx, l, b, y)
    requires AddsNothingBelow(Saturate(l, ctx.Attributes(), b), b, y)
    ensures Stable(ctx, Saturate(l, ctx.Attributes(), b))
  {
    var d := Saturate(l, ctx.Attributes(), b);
    SaturateIsLeast(l, ctx.Attributes(), b);
    forall q: set<nat> | q < d && Pseudo(ctx, q) ensures ctx.Closure(q) <= d {
      if b <= q {
        MissedIsListed(ctx, l, b, q);
      } else {
        assert AddsNothingBelow(q, b, y);
      }
      var i :| 0 <= i < |l| && l[i].premise == q;
      assert l[i].closure <= d;
    }
  }

  /** Pseudo-intents of the region contain the closure of b under the list. */
  lemma RegionAboveSaturated(ctx: Context, l: seq<Implication>, b: set<nat>, y: int, p: set<nat>)
    requires Node(ctx, l, b, y) && OnlyPseudo(ctx, l)
    requires forall k | 0 <= k < |l| :: !InRegion(l[k].premise, b, y)
    requires Pseudo(ctx, p) && InRegion(p, b, y)
    ensures Saturate(l, ctx.Attributes(), b) <= p
  {
    if !(Saturate(l, ctx.Attributes(), b) <= p) {
      MissedIsListed(ctx, l, b, p);
      assert false;
    }
  }

  /** Nothing of the region of (b, y) is listed yet. */
  ghost predicate Fresh(l: seq<Implication>, b: set<nat>, y: int) {
    forall k | 0 <= k < |l| :: !InRegion(l[k].premise, b, y)
  }

  /** The children loop of an intent starts with everything it needs. */
  lemma EarlierForIntent(ctx: Context, l: seq<Implication>, b: set<nat>, y: int, c: set<nat>)
    requires Node(ctx, l, b, y) && OnlyPseudo(ctx, l) && Earlier(ctx, l, b, y)
    requires c == Saturate(l, ctx.Attributes(), b) && AddsNothingBelow(c, b, y)
    ensures Earlier(ctx, l, c, y)
  {
    forall p: set<nat> | Pseudo(ctx, p) && !(c <= p) && AddsNothingBelow(p, c, y) ensures Emitted(l, p) {
      if b <= p { MissedIsListed(ctx, l, b, p); } else { assert AddsNothingBelow(p, b, y); }
    }
  }

  /** ... and so does the extension of the pseudo-intent d to its closure c. */
  lemma EarlierForExtension(ctx: Context, l: seq<Implication>, b: set<nat>, y: int, d: set<nat>, c: set<nat>,
                            l': seq<Implication>)
    requires Node(ctx, l, b, y) && OnlyPseudo(ctx, l) && Earlier(ctx, l, b, y)
    requires d == Saturate(l, ctx.Attributes(), b) && AddsNothingBelow(d, b, y) && Agrees(d, c, y + 1)
    requires Pseudo(ctx, d) && c == ctx.Closure(d)
    requires l <= l' && Emitted(l', d)
    ensures Earlier(ctx, l', c, y)
  {
    EarlierForIntent(ctx, l, b, y, d);
    forall p: set<nat> | Pseudo(ctx, p) && !(c <= p) && AddsNothingBelow(p, c, y) ensures Emitted(l', p) {
      if d <= p {
        assert !(d < p);
      } else {
        assert AddsNothingBelow(p, d, y);
        EmittedStays(l, l', p);
      }
    }
  }

  lemma AppendGood(ctx: Context, l: seq<Implication>, d: set<nat>)
    requires ctx.Valid() && Good(ctx, l) && Within(l, ctx.Attributes()) && Pseudo(ctx, d) && Respects(l, d)
    ensures Good(ctx, l + [Implication(d, ctx.Closure(d), ctx.Extent(d))])
    ensures Emitted(l + [Implication(d, ctx.Closure(d), ctx.Extent(d))], d)
  {
    var l' := l + [Implication(d, ctx.Closure(d), ctx.Extent(d))];
    ClosureExtensive(ctx, d);
    assert l'[|l|].premise == d;
    forall i | 0 <= i < |l| ensures l[i].premise != d {
      if l[i].premise == d {
        assert false;
      }
    }
  }

  /** What remains of the region below d once d is listed. */
  lemma RegionOfExtension(ctx: Context, b: set<nat>, y: int, d: set<nat>, c: set<nat>, p: set<nat>)
    requires b <= d <= c && Agrees(d, b, y) && (y >= 0 ==> y in b)
    requires Pseudo(ctx, p) && InRegion(p, b, y) && d <= p && p != d
    requires Pseudo(ctx, d) && c == ctx.Closure(d)
    ensures InRegion(p, c, y) && Agrees(d, c, y + 1)
  {
    assert d < p;
    assert c <= p;
  }

  lemma {:induction false} StepCorrect(ctx: Context, l: seq<Implication>, b: set<nat>, y: int)
    requires Node(ctx, l, b, y) && Good(ctx, l) && Earlier(ctx, l, b, y) && Fresh(l, b, y)
    ensures Good(ctx, Step(ctx, l, b, y))
    ensures RegionListed(ctx, Step(ctx, l, b, y), |l|, b, y)
    decreases |ctx.cols| - y, ctx.Attributes() - b, 1, 0
  {
    var d := Saturate(l, ctx.Attributes(), b);
    forall p: set<nat> | Pseudo(ctx, p) && InRegion(p, b, y) ensures d <= p {
      RegionAboveSaturated(ctx, l, b, y, p);
    }
    if AddsNothingBelow(d, b, y) {
      SaturatedIsStable(ctx, l, b, y);
      StableIsIntentOrPseudo(ctx, d);
      var c := ctx.Closure(d);
      ClosureExtensive(ctx, d);
      if c != d {
        var l' := l + [Implication(d, c, ctx.Extent(d))];
        ExtensionCorrect(ctx, l, b, y, d, c, l', if Agrees(d, c, y + 1) then Step(ctx, l', c, y) else l');
      } else {
        EarlierForIntent(ctx, l, b, y, c);
        assert ctx.Attributes() - c <= ctx.Attributes() - b;
        IntentCorrect(ctx, l, b, y, c);
      }
    }
  }

  lemma ExtensionRegion(ctx: Context, l': seq<Implication>, r: seq<Implication>, b: set<nat>, y: int,
                        d: set<nat>, c: set<nat>)
    requires b <= d <= c && Agrees(d, b, y) && (y >= 0 ==> y in b)
    requires Pseudo(ctx, d) && c == ctx.Closure(d)
    requires forall p: set<nat> | Pseudo(ctx, p) && InRegion(p, b, y) :: d <= p
    requires |l'| > 0 && l'[|l'| - 1].premise == d && l' <= r
    requires if Agrees(d, c, y + 1) then RegionListed(ctx, r, |l'|, c, y) else r == l'
    ensures RegionListed(ctx, r, |l'| - 1, b, y)
  {
    forall p: set<nat> | Pseudo(ctx, p) && InRegion(p, b, y) ensures Emitted(r, p) {
      if p == d {
        assert r[|l'| - 1].premise == d;
      } else {
        RegionOfExtension(ctx, b, y, d, c, p);
      }
    }
    forall k | |l'| - 1 <= k < |r| ensures InRegion(r[k].premise, b, y) {
      if k >= |l'| {
        assert InRegion(r[k].premise, c, y);
      }
    }
  }

  /** The branch that emits d -> d'' and goes on from d''. */
  lemma {:induction false} ExtensionCorrect(ctx: Context, l: seq<Implication>, b: set<nat>, y: int,
                                            d: set<nat>, c: set<nat>, l': seq<Implication>, r: seq<Implication>)
    requires Node(ctx, l, b, y) && Good(ctx, l) && Earlier(ctx, l, b, y) && Fresh(l, b, y)
    requires d == Saturate(l, ctx.Attributes(), b) && AddsNothingBelow(d, b, y) && Pseudo(ctx, d)
    requires c == ctx.Closure(d) != d && d <= c <= ctx.Attributes()
    requires forall p: set<nat> | Pseudo(ctx, p) && InRegion(p, b, y) :: d <= p
    requires l' == l + [Implication(d, c, ctx.Extent(d))] && Within(l', ctx.Attributes())
    requires r == if Agrees(d, c, y + 1) then Step(ctx, l', c, y) else l'
    ensures Good(ctx, r)
    ensures RegionListed(ctx, r, |l|, b, y)
    decreases |ctx.cols| - y, ctx.Attributes() - b, 0, 0
  {
    SaturateIsLeast(l, ctx.Attributes(), b);
    AppendGood(ctx, l, d);
    if Agrees(d, c, y + 1) {
      EarlierForExtension(ctx, l, b, y, d, c, l');
      FreshAfterExtension(l, b, y, d, c, l');
      StrictlyFewer(ctx.Attributes(), b, d, c);
      StepCorrect(ctx, l', c, y);
    }
    ExtensionRegion(ctx, l', r, b, y, d, c);
  }

  lemma FreshAfterExtension(l: seq<Implication>, b: set<nat>, y: int, d: set<nat>, c: set<nat>, l': seq<Implication>)
    requires Fresh(l, b, y) && b <= d <= c && c != d && Agrees(d, b, y) && Agrees(d, c, y + 1)
    requires |l'| == |l| + 1 && l <= l' && l'[|l|].premise == d
    ensures Fresh(l', c, y)
  {
    forall k | 0 <= k < |l'| ensures !InRegion(l'[k].premise, c, y) {
      if k < |l| {
        assert l'[k] == l[k] && !InRegion(l[k].premise, b, y);
      }
    }
  }

  /** The branch of an intent: only its children are left. */
  lemma {:induction false} IntentCorrect(ctx: Context, l: seq<Implication>, b: set<nat>, y: int, c: set<nat>)
    requires Node(ctx, l, b, y) && Good(ctx, l) && Earlier(ctx, l, c, y) && Fresh(l, b, y)
    requires b <= c <= ctx.Attributes() && c == ctx.Closure(c) && AddsNothingBelow(c, b, y)
    requires forall p: set<nat> | Pseudo(ctx, p) && InRegion(p, b, y) :: c <= p
    requires ctx.Attributes() - c <= ctx.Attributes() - b
    ensures Good(ctx, Children(ctx, l, c, y, |ctx.cols|))
    ensures RegionListed(ctx, Children(ctx, l, c, y, |ctx.cols|), |l|, b, y)
    decreases |ctx.cols| - y, ctx.Attributes() - b, 0, |ctx.cols| + 1
  {
    forall k | 0 <= k < |l| ensures !InRegion(l[k].premise, c, y + 1) {
      assert !InRegion(l[k].premise, b, y);
    }
    forall p: set<nat> | Pseudo(ctx, p) ensures !InRegion(p, c, |ctx.cols|) {
      assert InRegion(p, c, |ctx.cols|) ==> p == c;
    }
    ChildrenCorrect(ctx, l, c, y, |ctx.cols|);
    IntentRegion(ctx, Children(ctx, l, c, y, |ctx.cols|), |l|, b, y, c);
  }

  lemma IntentRegion(ctx: Context, r: seq<Implication>, start: nat, b: set<nat>, y: int, c: set<nat>)
    requires b <= c && AddsNothingBelow(c, b, y) && (y >= 0 ==> y in b)
    requires forall p: set<nat> | Pseudo(ctx, p) && InRegion(p, b, y) :: c <= p
    requires RegionListed(ctx, r, start, c, y + 1)
    ensures RegionListed(ctx, r, start, b, y)
  {
    forall p: set<nat> | Pseudo(ctx, p) && InRegion(p, b, y) ensures Emitted(r, p) {
      assert InRegion(p, c, y + 1);
    }
    forall k | start <= k < |r| ensures InRegion(r[k].premise, b, y) {
      assert InRegion(r[k].premise, c, y + 1);
    }
  }

  /** Everything listed in the region of the intent c was found by a child above i. */
  ghost predicate FoundAbove(l: seq<Implication>, c: set<nat>, y: int, i: int) {
    forall k | 0 <= k < |l| && InRegion(l[k].premise, c, y + 1) :: Agrees(l[k].premise, c, i)
  }

  ghost predicate ChildrenAboveListed(ctx: Context, l: seq<Implication>, c: set<nat>, i: int) {
    forall p: set<nat> | Pseudo(ctx, p) && InRegion(p, c, i) :: Emitted(l, p)
  }

  lemma EarlierForChild(ctx: Context, l: seq<Implication>, c: set<nat>, y: int, j: int)
    requires y < j && j >= 0 && j !in c
    requires Earlier(ctx, l, c, y) && ChildrenAboveListed(ctx, l, c, j + 1)
    ensures Earlier(ctx, l, c + {j}, j)
  {
    forall p: set<nat> | Pseudo(ctx, p) && !(c + {j} <= p) && AddsNothingBelow(p, c + {j}, j)
      ensures Emitted(l, p)
    {
      if c <= p { assert InRegion(p, c, j + 1); } else { assert AddsNothingBelow(p, c, y); }
    }
  }

  lemma ChildDone(ctx: Context, l: seq<Implication>, r: seq<Implication>, c: set<nat>, y: int, j: int)
    requires y < j && j >= 0 && j !in c && l <= r
    requires FoundAbove(l, c, y, j + 1) && ChildrenAboveListed(ctx, l, c, j + 1)
    requires RegionListed(ctx, r, |l|, c + {j}, j)
    ensures FoundAbove(r, c, y, j) && ChildrenAboveListed(ctx, r, c, j)
    ensures forall k | |l| <= k < |r| :: InRegion(r[k].premise, c, y + 1)
  {
    forall p: set<nat> | Pseudo(ctx, p) && InRegion(p, c, j) ensures Emitted(r, p) {
      if j in p {
        assert InRegion(p, c + {j}, j);
      } else {
        assert InRegion(p, c, j + 1);
        EmittedStays(l, r, p);
      }
    }
    forall k | 0 <= k < |r| && InRegion(r[k].premise, c, y + 1) ensures Agrees(r[k].premise, c, j) {
      if k < |l| {
        assert r[k] == l[k];
      } else {
        assert InRegion(r[k].premise, c + {j}, j);
      }
    }
  }

  lemma FreshForChild(l: seq<Implication>, c: set<nat>, y: int, i: int)
    requires FoundAbove(l, c, y, i) && y < i - 1 && i - 1 !in c && i - 1 >= 0
    ensures Fresh(l, c + {i - 1}, i - 1)
  {
    forall k | 0 <= k < |l| ensures !InRegion(l[k].premise, c + {i - 1}, i - 1) {
      if InRegion(l[k].premise, c + {i - 1}, i - 1) { assert InRegion(l[k].premise, c, y + 1); }
    }
  }

  lemma {:induction false} ChildrenCorrect(ctx: Context, l: seq<Implication>, c: set<nat>, y: int, i: int)
    requires Node(ctx, l, c, y) && Good(ctx, l) && y < i <= |ctx.cols|
    requires Earlier(ctx, l, c, y)
    requires FoundAbove(l, c, y, i) && ChildrenAboveListed(ctx, l, c, i)
    ensures Good(ctx, Children(ctx, l, c, y, i))
    ensures RegionListed(ctx, Children(ctx, l, c, y, i), |l|, c, y + 1)
    decreases |ctx.cols| - y, ctx.Attributes() - c, 0, i
  {
    if i > y + 1 {
      var j := i - 1;
      if j in c {
        forall p: set<nat> | InRegion(p, c, j) ensures InRegion(p, c, i) {}
        ChildrenCorrect(ctx, l, c, y, j);
      } else {
        EarlierForChild(ctx, l, c, y, j);
        FreshForChild(l, c, y, i);
        StepCorrect(ctx, l, c + {j}, j);
        var r := Step(ctx, l, c + {j}, j);
        ChildDone(ctx, l, r, c, y, j);
        EarlierStays(ctx, l, r, c, y);
        ChildrenCorrect(ctx, r, c, y, j);
      }
    }
  }

  lemma EarlierStays(ctx: Context, l: seq<Implication>, r: seq<Implication>, b: set<nat>, y: int)
    requires l <= r && Earlier(ctx, l, b, y)
    ensures Earlier(ctx, r, b, y)
  {
    forall p: set<nat> | Pseudo(ctx, p) && !(b <= p) && AddsNothingBelow(p, b, y) ensures Emitted(r, p) {
      EmittedStays(l, r, p);
    }
  }

  /** The search lists exactly one implication p -> p'' for every pseudo-intent p. */
  lemma SearchIsCanonicalBasis(ctx: Context)
    requires ctx.Valid()
    ensures IsCanonicalBasis(ctx, Search(ctx))
  {
    StepCorrect(ctx, [], {}, -1);
    var r := Search(ctx);
    forall p: set<nat> | Pseudo(ctx, p) ensures Emitted(r, p) {
      assert InRegion(p, {}, -1);
    }
  }

  /** What the search lists holds in the context and implies all that does; no implication can
      be spared, and no other such list is shorter. */
  lemma SearchIsSmallestBasis(ctx: Context)
    requires ctx.Valid()
    ensures Sound(ctx, Search(ctx)) && Complete(ctx, Search(ctx))
    ensures forall k | 0 <= k < |Search(ctx)| :: !Complete(ctx, Search(ctx)[..k] + Search(ctx)[k + 1..])
    ensures forall other | Sound(ctx, other) && Complete(ctx, other) :: |Search(ctx)| <= |other|
  {
    hide *;
    SearchIsCanonicalBasis(ctx);
    CanonicalSoundComplete(ctx, Search(ctx));
    forall k | 0 <= k < |Search(ctx)| ensures !Complete(ctx, Search(ctx)[..k] + Search(ctx)[k + 1..]) {
      CanonicalNonRedundant(ctx, Search(ctx), k);
    }
    forall other | Sound(ctx, other) && Complete(ctx, other) ensures |Search(ctx)| <= |other| {
      CanonicalMinimum(ctx, Search(ctx), other);
    }
  }

  // ---- the order of the list ----

  /** q holds the smallest attribute in which p and q differ. */
  ghost predicate LecticLess(p: set<nat>, q: set<nat>) {
    exists a: nat :: DifferFirst(p, q, a)
  }

  ghost predicate DifferFirst(p: set<nat>, q: set<nat>, a: nat) {
    a in q && a !in p && Agrees(p, q, a)
  }

  /** From position start on, the premises come in lectic order. */
  ghost predicate InLecticOrder(l: seq<Implication>, start: nat) {
    forall i, j | start <= i < j < |l| :: LecticLess(l[i].premise, l[j].premise)
  }

  /** The premises from position start on belong to the children of c below i. */
  ghost predicate AmongChildren(l: seq<Implication>, start: nat, c: set<nat>, y: int, i: int) {
    forall k | start <= k < |l| :: ChildOf(l[k].premise, c, y, i)
  }

  ghost predicate ChildOf(p: set<nat>, c: set<nat>, y: int, i: int) {
    exists j: nat :: y < j < i && j !in c && InRegion(p, c + {j}, j)
  }

  ghost predicate AllInRegion(l: seq<Implication>, start: nat, b: set<nat>, y: int) {
    forall k | start <= k < |l| :: InRegion(l[k].premise, b, y)
  }

  lemma LecticIsStrict(p: set<nat>, q: set<nat>)
    requires LecticLess(p, q)
    ensures p != q && !LecticLess(q, p)
  {
    var a: nat :| DifferFirst(p, q, a);
    forall b: nat ensures !DifferFirst(q, p, b) {
      if b < a { assert b in p <==> b in q; }
    }
  }

  /** A strictly larger set comes later. */
  lemma LargerIsLater(p: set<nat>, q: set<nat>)
    requires p < q
    ensures LecticLess(p, q)
  {
    var a: nat :| a in q && a !in p;
    var least := LeastOf(q - p, a);
    forall x: nat | x < least ensures x in p <==> x in q {
      assert x in q - p <==> x in q && x !in p;
    }
    assert DifferFirst(p, q, least);
  }

  lemma {:induction false} LeastOf(s: set<nat>, x: nat) returns (a: nat)
    requires x in s
    ensures a in s && forall b | b in s :: a <= b
    decreases x
  {
    if y :| y in s && y < x {
      a := LeastOf(s, y);
    } else {
      a := x;
    }
  }

  /** What child i - 1 lists comes before what the children below it list. */
  lemma HigherChildFirst(p: set<nat>, q: set<nat>, c: set<nat>, y: int, i: int)
    requires 0 < i && i - 1 !in c && InRegion(p, c + {i - 1}, i - 1) && ChildOf(q, c, y, i - 1)
    ensures LecticLess(p, q)
  {
    var j: nat :| y < j < i - 1 && j !in c && InRegion(q, c + {j}, j);
    assert DifferFirst(p, q, j);
  }

  lemma {:induction false} StepInOrder(ctx: Context, l: seq<Implication>, b: set<nat>, y: int)
    requires Node(ctx, l, b, y)
    ensures var r := Step(ctx, l, b, y); AllInRegion(r, |l|, b, y) && InLecticOrder(r, |l|)
    decreases |ctx.cols| - y, ctx.Attributes() - b, 1
  {
    var d := Saturate(l, ctx.Attributes(), b);
    if AddsNothingBelow(d, b, y) {
      SaturateIsLeast(l, ctx.Attributes(), b);
      var c := ctx.Closure(d);
      ClosureExtensive(ctx, d);
      if c != d {
        if Agrees(d, c, y + 1) {
          StrictlyFewer(ctx.Attributes(), b, d, c);
          var l' := l + [Implication(d, c, ctx.Extent(d))];
          StepInOrder(ctx, l', c, y);
          FirstThenLarger(Step(ctx, l', c, y), |l|, b, d, c, y);
        }
      } else {
        ChildrenInOrder(ctx, l, c, y, |ctx.cols|);
        ChildrenInRegion(Children(ctx, l, c, y, |ctx.cols|), |l|, b, c, y, |ctx.cols|);
      }
    }
  }

  lemma FirstThenLarger(r: seq<Implication>, start: nat, b: set<nat>, d: set<nat>, c: set<nat>, y: int)
    requires start < |r| && r[start].premise == d && b <= d < c && AddsNothingBelow(d, b, y) && Agrees(d, c, y + 1)
    requires AllInRegion(r, start + 1, c, y) && InLecticOrder(r, start + 1)
    ensures AllInRegion(r, start, b, y) && InLecticOrder(r, start)
  {
    hide LecticLess;
    forall k | start <= k < |r| ensures InRegion(r[k].premise, b, y) && (k > start ==> LecticLess(d, r[k].premise)) {
      if k > start {
        assert InRegion(r[k].premise, c, y);
        LargerIsLater(d, r[k].premise);
      }
    }
  }

  lemma ChildrenInRegion(r: seq<Implication>, start: nat, b: set<nat>, c: set<nat>, y: int, n: int)
    requires AmongChildren(r, start, c, y, n) && b <= c && AddsNothingBelow(c, b, y)
    ensures AllInRegion(r, start, b, y)
  {
    forall k | start <= k < |r| ensures InRegion(r[k].premise, b, y) {
      assert ChildOf(r[k].premise, c, y, n);
    }
  }

  lemma {:induction false} ChildrenInOrder(ctx: Context, l: seq<Implication>, c: set<nat>, y: int, i: int)
    requires Node(ctx, l, c, y) && y < i <= |ctx.cols|
    ensures var r := Children(ctx, l, c, y, i); AmongChildren(r, |l|, c, y, i) && InLecticOrder(r, |l|)
    decreases |ctx.cols| - y, ctx.Attributes() - c, 0, i
  {
    if i > y + 1 {
      if i - 1 in c {
        ChildrenInOrder(ctx, l, c, y, i - 1);
        MoreChildren(Children(ctx, l, c, y, i - 1), |l|, |l|, c, y, i);
      } else {
        StepInOrder(ctx, l, c + {i - 1}, i - 1);
        var mid := Step(ctx, l, c + {i - 1}, i - 1);
        ChildrenInOrder(ctx, mid, c, y, i - 1);
        var r := Children(ctx, mid, c, y, i - 1);
        forall k | |l| <= k < |mid| ensures r[k] == mid[k] {}
        MoreChildren(r, |l|, |mid|, c, y, i);
      }
    }
  }

  /** The list of child i - 1, then those of the children below it. */
  lemma MoreChildren(r: seq<Implication>, start: nat, mid: nat, c: set<nat>, y: int, i: int)
    requires y < i - 1 && start <= mid <= |r| && InLecticOrder(r, mid) && AmongChildren(r, mid, c, y, i - 1)
    requires start < mid ==> 0 < i && i - 1 !in c
    requires forall k | start <= k < mid :: InRegion(r[k].premise, c + {i - 1}, i - 1)
    requires forall k, m | start <= k < m < mid :: LecticLess(r[k].premise, r[m].premise)
    ensures AmongChildren(r, start, c, y, i) && InLecticOrder(r, start)
  {
    hide LecticLess, InRegion;
    forall k | start <= k < |r| ensures ChildOf(r[k].premise, c, y, i) {
      if k >= mid { assert ChildOf(r[k].premise, c, y, i - 1); }
    }
    forall k, m | start <= k < m < |r| ensures LecticLess(r[k].premise, r[m].premise) {
      if k < mid <= m {
        assert ChildOf(r[m].premise, c, y, i - 1);
        HigherChildFirst(r[k].premise, r[m].premise, c, y, i);
      }
    }
  }

  /** The search lists the implications in the lectic order of their premises. */
  lemma SearchIsInOrder(ctx: Context)
    requires ctx.Valid()
    ensures InLecticOrder(Search(ctx), 0)
  {
    StepInOrder(ctx, [], {}, -1);
  }

  /** Only one list has the canonical implications in that order. */
  lemma SearchIsOnlyOne(ctx: Context, l: seq<Implication>)
    requires ctx.Valid() && IsCanonicalBasis(ctx, l) && InLecticOrder(l, 0)
    ensures l == Search(ctx)
  {
    SearchIsCanonicalBasis(ctx);
    SearchIsInOrder(ctx);
    var s := Search(ctx);
    forall p: set<nat> ensures Emitted(l, p) <==> Emitted(s, p) {
      EmittedIsPseudo(ctx, l, p);
      EmittedIsPseudo(ctx, s, p);
    }
    SameOrder(l, s);
    forall k | 0 <= k < |l| ensures l[k] == s[k] {}
  }

  lemma EmittedIsPseudo(ctx: Context, l: seq<Implication>, p: set<nat>)
    requires IsCanonicalBasis(ctx, l)
    ensures Emitted(l, p) <==> Pseudo(ctx, p)
  {
    hide Pseudo;
  }

  /** Two lists in lectic order with the same premises have them at the same places. */
  lemma {:induction false} SameOrder(l: seq<Implication>, m: seq<Implication>)
    requires InLecticOrder(l, 0) && InLecticOrder(m, 0) && forall p: set<nat> :: Emitted(l, p) <==> Emitted(m, p)
    ensures |l| == |m| && forall k | 0 <= k < |l| :: l[k].premise == m[k].premise
  {
    hide LecticLess;
    BothEmpty(l, m);
    if l != [] {
      assert Emitted(l, l[0].premise);
      FirstIsFirst(l, m);
      FirstIsFirst(m, l);
      if l[0].premise != m[0].premise { LecticIsStrict(l[0].premise, m[0].premise); }
      forall p: set<nat> ensures Emitted(l[1..], p) <==> Emitted(m[1..], p) {
        WithoutFirst(l, p);
        WithoutFirst(m, p);
      }
      SameOrder(l[1..], m[1..]);
    }
  }

  lemma BothEmpty(l: seq<Implication>, m: seq<Implication>)
    requires forall p: set<nat> :: Emitted(l, p) <==> Emitted(m, p)
    ensures m != [] ==> l != []
  {
    if m != [] { assert Emitted(m, m[0].premise); }
  }

  lemma FirstIsFirst(l: seq<Implication>, m: seq<Implication>)
    requires l != [] && InLecticOrder(l, 0) && forall p: set<nat> :: Emitted(l, p) <==> Emitted(m, p)
    ensures m != [] && (l[0].premise == m[0].premise || LecticLess(l[0].premise, m[0].premise))
  {
    assert Emitted(l, l[0].premise) && Emitted(m, m[0].premise);
  }

  lemma WithoutFirst(l: seq<Implication>, p: set<nat>)
    requires l != [] && InLecticOrder(l, 0)
    ensures Emitted(l[1..], p) <==> Emitted(l, p) && p != l[0].premise
  {
    if Emitted(l[1..], p) {
      var i :| 0 <= i < |l[1..]| && l[1..][i].premise == p;
      LecticIsStrict(l[0].premise, l[i + 1].premise);
    }
    if Emitted(l, p) && p != l[0].premise {
      var i :| 0 <= i < |l| && l[i].premise == p;
      assert l[1..][i - 1].premise == p;
    }
  }
}
