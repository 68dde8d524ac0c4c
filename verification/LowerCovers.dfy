/** The lower covers of every closed set, found among its intersections with the
    meet-irreducible columns. */
module LowerCovers {
  import opened FiniteSets
  import opened FormalContext
  import opened CloseByOne
  import Derivation

  // ---- irreducible columns ----

  ghost predicate InMeet(ctx: Context, a: nat, o: nat, n: nat)
    requires a < |ctx.cols| && n <= |ctx.cols|
  {
    forall k: nat | k < n && ctx.cols[a] < ctx.cols[k] :: o in ctx.cols[k]
  }

  /** The objects in each of the first n columns that strictly contains the column of a. */
  ghost function Meet(ctx: Context, a: nat, n: nat): set<nat>
    requires a < |ctx.cols| && n <= |ctx.cols|
  {
    set o: nat | o < |ctx.rows| && InMeet(ctx, a, o, n)
  }

  /** The column is not the intersection of those around it. */
  ghost predicate Irreducible(ctx: Context, a: nat)
    requires a < |ctx.cols|
  {
    Meet(ctx, a, |ctx.cols|) != ctx.cols[a]
  }

  ghost function Irreducibles(ctx: Context, n: nat): set<nat>
    requires n <= |ctx.cols|
  {
    set a: nat | a < n && Irreducible(ctx, a)
  }

  /** An object that is missing in column a is missing in some irreducible column around it. */
  lemma {:induction false} IrreducibleWitness(ctx: Context, a: nat, o: nat) returns (k: nat)
    requires ctx.Valid() && a < |ctx.cols| && o < |ctx.rows| && o !in ctx.cols[a]
    ensures k < |ctx.cols| && Irreducible(ctx, k) && ctx.cols[a] <= ctx.cols[k] && o !in ctx.cols[k]
    decreases ctx.Objects() - ctx.cols[a]
  {
    if Irreducible(ctx, a) {
      k := a;
    } else {
      assert !InMeet(ctx, a, o, |ctx.cols|);
      var b: nat :| b < |ctx.cols| && ctx.cols[a] < ctx.cols[b] && o !in ctx.cols[b];
      assert ctx.Objects() - ctx.cols[b] < ctx.Objects() - ctx.cols[a] by {
        var x :| x in ctx.cols[b] && x !in ctx.cols[a];
        assert x in ctx.Objects() - ctx.cols[a] && x !in ctx.Objects() - ctx.cols[b];
      }
      k := IrreducibleWitness(ctx, b, o);
    }
  }

  /** The irreducible attributes, in order. */
  method ComputeIrreducibles(ctx: Context) returns (irr: seq<nat>)
    requires ctx.Valid()
    ensures Derivation.Sorted(Irreducibles(ctx, |ctx.cols|), irr)
  {
    irr := [];
    for a := 0 to |ctx.cols|
      invariant Derivation.Sorted(Irreducibles(ctx, a), irr)
    {
      var found, meet := false, {};
      MeetStep(ctx, a, a);
      for k := 0 to |ctx.cols|
        invariant Meet(ctx, a, k) == if found then meet else ctx.Objects()
      {
        MeetStep(ctx, a, k);
        if k != a && |ctx.cols[k]| > |ctx.cols[a]| && ctx.cols[a] <= ctx.cols[k] {
          if found {
            meet := meet * ctx.cols[k];
          } else {
            found, meet := true, ctx.cols[k];
          }
        }
      }
      var irreducible;
      if found {
        irreducible := meet != ctx.cols[a];
      } else {
        RangeCard(|ctx.rows|);
        SubsetCard(ctx.cols[a], ctx.Objects());
        irreducible := |ctx.cols[a]| != |ctx.rows|;
      }
      assert irreducible <==> Irreducible(ctx, a);
      if irreducible {
        assert forall p | 0 <= p < |irr| :: irr[p] in irr;
        assert forall x: nat :: x in irr + [a] <==> x in irr || x == a;
        irr := irr + [a];
      }
    }
  }

  lemma MeetStep(ctx: Context, a: nat, k: nat)
    requires ctx.Valid() && a < |ctx.cols| && k < |ctx.cols|
    ensures Meet(ctx, a, k + 1) == if ctx.cols[a] < ctx.cols[k] then Meet(ctx, a, k) * ctx.cols[k] else Meet(ctx, a, k)
    ensures Meet(ctx, a, 0) == ctx.Objects() && ctx.cols[k] <= ctx.Objects()
    ensures ctx.cols[a] < ctx.cols[k] <==> k != a && |ctx.cols[k]| > |ctx.cols[a]| && ctx.cols[a] <= ctx.cols[k]
  {
    if ctx.cols[a] <= ctx.cols[k] { SubsetCard(ctx.cols[a], ctx.cols[k]); }
    if ctx.cols[k] <= ctx.cols[a] { SubsetCard(ctx.cols[k], ctx.cols[a]); }
    forall o: nat ensures o in Meet(ctx, a, k + 1)
      <==> o in Meet(ctx, a, k) && (ctx.cols[a] < ctx.cols[k] ==> o in ctx.cols[k]) {
      InMeetStep(ctx, a, o, k);
    }
    forall o: nat ensures o in Meet(ctx, a, 0) <==> o < |ctx.rows| {
      assert InMeet(ctx, a, o, 0);
    }
    hide Meet;
    assert Meet(ctx, a, 0) == ctx.Objects();
    if ctx.cols[a] < ctx.cols[k] {
      assert Meet(ctx, a, k + 1) == Meet(ctx, a, k) * ctx.cols[k];
    } else {
      assert Meet(ctx, a, k + 1) == Meet(ctx, a, k);
    }
  }

  lemma InMeetStep(ctx: Context, a: nat, o: nat, k: nat)
    requires a < |ctx.cols| && k < |ctx.cols|
    ensures InMeet(ctx, a, o, k + 1) <==> InMeet(ctx, a, o, k) && (ctx.cols[a] < ctx.cols[k] ==> o in ctx.cols[k])
  {}

  // ---- covers ----

  /** x lies directly below e among the closed sets. */
  ghost predicate IsLowerCover(ctx: Context, e: set<nat>, x: set<nat>) {
    IsClosed(ctx, x) && x < e && forall y: set<nat> | IsClosed(ctx, y) :: !(x < y < e)
  }

  /** x is what an irreducible attribute cuts out of e. */
  ghost predicate IsCandidate(ctx: Context, e: set<nat>, x: set<nat>) {
    exists a: nat :: a < |ctx.cols| && Irreducible(ctx, a) && !(e <= ctx.cols[a]) && x == e * ctx.cols[a]
  }

  /** An object outside a closed set is missing in one of its columns. */
  lemma MissingColumn(ctx: Context, x: set<nat>, o: nat) returns (a: nat)
    requires ctx.Valid() && IsClosed(ctx, x) && o < |ctx.rows| && o !in x
    ensures a < |ctx.cols| && x <= ctx.cols[a] && o !in ctx.cols[a]
  {
    assert o !in ctx.Extent(ctx.Intent(x));
    a :| a in ctx.Intent(x) && a !in ctx.rows[o];
  }

  /** Every closed set below e lies in a candidate. */
  lemma CandidateAbove(ctx: Context, e: set<nat>, x: set<nat>) returns (y: set<nat>)
    requires ctx.Valid() && e <= ctx.Objects() && IsClosed(ctx, x) && x < e
    ensures IsCandidate(ctx, e, y) && x <= y
  {
    hide IsClosed, Irreducible;
    var o :| o in e && o !in x;
    var a := MissingColumn(ctx, x, o);
    var k := IrreducibleWitness(ctx, a, o);
    y := e * ctx.cols[k];
  }

  /** Cutting a closed set by a column leaves a closed set. */
  lemma CutClosed(ctx: Context, e: set<nat>, a: nat)
    requires ctx.Valid() && IsClosed(ctx, e) && a < |ctx.cols|
    ensures IsClosed(ctx, e * ctx.cols[a])
  {
    var x := e * ctx.cols[a];
    ExtentOfIntent(ctx, x);
    IntentAntitone(ctx, x, e);
    ExtentAntitone(ctx, ctx.Intent(e), ctx.Intent(x));
    assert a in ctx.Intent(x);
    forall o | o in ctx.Extent(ctx.Intent(x)) ensures o in ctx.cols[a] {}
  }

  lemma CandidateClosed(ctx: Context, e: set<nat>, x: set<nat>)
    requires ctx.Valid() && IsClosed(ctx, e) && IsCandidate(ctx, e, x)
    ensures IsClosed(ctx, x) && x < e
  {
    hide IsClosed, Irreducible;
    var a: nat :| a < |ctx.cols| && Irreducible(ctx, a) && !(e <= ctx.cols[a]) && x == e * ctx.cols[a];
    CutClosed(ctx, e, a);
  }

  ghost predicate IsMaximal(ctx: Context, e: set<nat>, x: set<nat>) {
    IsCandidate(ctx, e, x) && forall y | IsCandidate(ctx, e, y) :: !(x < y)
  }

  lemma NothingBetween(ctx: Context, e: set<nat>, x: set<nat>, y: set<nat>)
    requires IsLowerCover(ctx, e, x) && IsClosed(ctx, y)
    ensures IsClosed(ctx, x) && x < e && !(x < y < e)
  {}

  lemma CoverIsMaximal(ctx: Context, e: set<nat>, x: set<nat>)
    requires ctx.Valid() && IsClosed(ctx, e) && e <= ctx.Objects() && IsLowerCover(ctx, e, x)
    ensures IsMaximal(ctx, e, x)
  {
    hide IsClosed, IsCandidate, IsLowerCover, Context.Valid;
    NothingBetween(ctx, e, x, e);
    var y := CandidateAbove(ctx, e, x);
    CandidateClosed(ctx, e, y);
    NothingBetween(ctx, e, x, y);
    assert x == y;
    forall z | IsCandidate(ctx, e, z) ensures !(x < z) {
      CandidateClosed(ctx, e, z);
      NothingBetween(ctx, e, x, z);
    }
  }

  lemma MaximalIsCover(ctx: Context, e: set<nat>, x: set<nat>)
    requires ctx.Valid() && IsClosed(ctx, e) && e <= ctx.Objects() && IsMaximal(ctx, e, x)
    ensures IsLowerCover(ctx, e, x)
  {
    hide IsClosed, IsCandidate, Context.Valid;
    CandidateClosed(ctx, e, x);
    forall y: set<nat> | IsClosed(ctx, y) ensures !(x < y < e) {
      if x < y < e {
        var z := CandidateAbove(ctx, e, y);
        NotAbove(x, y, z);
      }
    }
  }

  lemma NotAbove(x: set<nat>, y: set<nat>, z: set<nat>)
    requires x < y <= z
    ensures x < z
  {}

  /** The lower covers are the maximal candidates. */
  lemma CoversAreMaximal(ctx: Context, e: set<nat>, x: set<nat>)
    requires ctx.Valid() && IsClosed(ctx, e)
    ensures IsLowerCover(ctx, e, x) <==> IsMaximal(ctx, e, x)
  {
    assert e <= ctx.Objects();
    hide IsMaximal, IsLowerCover, IsClosed;
    if IsLowerCover(ctx, e, x) { CoverIsMaximal(ctx, e, x); }
    if IsMaximal(ctx, e, x) { MaximalIsCover(ctx, e, x); }
  }

  // ---- candidates ----

  /** What the attributes of the list cut out of e. */
  method ListCandidates(ctx: Context, e: set<nat>, intent: set<nat>, irr: seq<nat>) returns (cand: seq<set<nat>>)
    requires ctx.Valid() && e <= ctx.Objects() && intent == ctx.Intent(e)
    requires Derivation.Sorted(Irreducibles(ctx, |ctx.cols|), irr)
    ensures forall x :: x in cand <==> IsCandidate(ctx, e, x)
  {
    cand := [];
    for s := 0 to |irr|
      invariant forall x :: x in cand <==> CutBy(ctx, e, irr[..s], x)
    {
      assert irr[s] in irr && irr[s] in Irreducibles(ctx, |ctx.cols|);
      assert irr[..s + 1] == irr[..s] + [irr[s]];
      CutStep(ctx, e, irr[..s], irr[s]);
      if irr[s] in intent {
        continue;
      }
      var dst := e * ctx.cols[irr[s]];
      SubsetCard(dst, e);
      if |dst| == |e| {
        continue;
      }
      cand := cand + [dst];
    }
    assert irr[..|irr|] == irr;
    forall x ensures IsCandidate(ctx, e, x) <==> CutBy(ctx, e, irr, x) {
      CutByAll(ctx, e, irr, x);
    }
  }

  ghost predicate CutBy(ctx: Context, e: set<nat>, attrs: seq<nat>, x: set<nat>) {
    exists a :: a in attrs && a < |ctx.cols| && !(e <= ctx.cols[a]) && x == e * ctx.cols[a]
  }

  lemma CutStep(ctx: Context, e: set<nat>, attrs: seq<nat>, a: nat)
    requires a < |ctx.cols|
    ensures forall x ::
        CutBy(ctx, e, attrs + [a], x) <==> CutBy(ctx, e, attrs, x) || (!(e <= ctx.cols[a]) && x == e * ctx.cols[a])
    ensures e * ctx.cols[a] == e <==> e <= ctx.cols[a]
  {
    forall x ensures CutBy(ctx, e, attrs + [a], x)
      <==> CutBy(ctx, e, attrs, x) || (!(e <= ctx.cols[a]) && x == e * ctx.cols[a]) {
      assert forall b :: b in attrs + [a] <==> b in attrs || b == a;
    }
  }

  lemma CutByAll(ctx: Context, e: set<nat>, irr: seq<nat>, x: set<nat>)
    requires Derivation.Sorted(Irreducibles(ctx, |ctx.cols|), irr)
    ensures IsCandidate(ctx, e, x) <==> CutBy(ctx, e, irr, x)
  {
    assert forall a: nat :: a in irr <==> a < |ctx.cols| && Irreducible(ctx, a);
  }

  // ---- counting sort ----

  /** The indices that the links lead through from i. */
  ghost function Chain(next: seq<int>, i: int): seq<nat>
    decreases i
  {
    if 0 <= i < |next| && next[i] < i then [i as nat] + Chain(next, next[i]) else []
  }

  lemma {:induction false} ChainKept(next: seq<int>, x: int, i: int)
    requires i < |next|
    ensures Chain(next + [x], i) == Chain(next, i)
    decreases i
  {
    if 0 <= i && next[i] < i { ChainKept(next, x, next[i]); }
  }

  /** A chain goes down. */
  lemma {:induction false} ChainDown(next: seq<int>, i: int)
    ensures forall j | j in Chain(next, i) :: j <= i
    ensures NoRepeats(Chain(next, i))
    decreases i
  {
    if 0 <= i < |next| && next[i] < i {
      ChainDown(next, next[i]);
      var tail := Chain(next, next[i]);
      assert forall k | 0 <= k < |tail| :: tail[k] in tail;
    }
  }

  /** The chain of each cardinality holds the first k indices with that cardinality. */
  ghost predicate Bucketed(card: seq<nat>, head: seq<int>, next: seq<int>) {
    && |next| <= |card| && (forall i | 0 <= i < |card| :: card[i] < |head|)
    && (forall i | 0 <= i < |next| :: -1 <= next[i] < i)
    && (forall c | 0 <= c < |head| :: -1 <= head[c] < |next|)
    && forall c | 0 <= c < |head| :: ChainHolds(card, next, head[c], c)
  }

  ghost predicate ChainHolds(card: seq<nat>, next: seq<int>, i: int, c: nat)
    requires |next| <= |card|
  {
    forall j: nat :: j in Chain(next, i) <==> j < |next| && card[j] == c
  }

  lemma BucketStep(card: seq<nat>, head: seq<int>, next: seq<int>)
    requires Bucketed(card, head, next) && |next| < |card|
    ensures var i := |next|;
      Bucketed(card, head[card[i] := i], next + [head[card[i]]])
  {
    var i := |next|;
    var c0 := card[i];
    var next', head' := next + [head[c0]], head[c0 := i];
    forall c | 0 <= c < |head| ensures ChainHolds(card, next', head'[c], c) {
      assert ChainHolds(card, next, head[c], c);
      ChainKept(next, head[c0], head[c]);
    }
  }

  ghost predicate AllEmpty(head: seq<int>) {
    forall c | 0 <= c < |head| :: head[c] == -1
  }

  /** Every index with a cardinality above c, once, the largest cardinalities first. */
  ghost predicate SortedAbove(card: seq<nat>, order: seq<nat>, c: int) {
    && NoRepeats(order) && (forall i: nat :: i in order <==> i < |card| && card[i] > c)
    && (forall p | 0 <= p < |order| :: order[p] < |card|)
    && forall p, q | 0 <= p <= q < |order| :: card[order[p]] >= card[order[q]]
  }

  /** The indices in the order of decreasing cardinality; the heads are reset for the next
      use. */
  method CountingSort(card: seq<nat>, head: array<int>) returns (order: seq<nat>)
    requires AllEmpty(head[..]) && forall i | 0 <= i < |card| :: card[i] < head.Length
    modifies head
    ensures AllEmpty(head[..]) && SortedAbove(card, order, -1) && |order| == |card|
  {
    var next: seq<int> := [];
    var maxc, minc := -1, head.Length;
    for i := 0 to |card|
      invariant |next| == i && Bucketed(card, head[..], next)
      invariant forall k | 0 <= k < i :: minc <= card[k] <= maxc
      invariant 0 <= minc && maxc < head.Length
      invariant forall c | 0 <= c < head.Length && !(minc <= c <= maxc) :: head[c] == -1
    {
      BucketStep(card, head[..], next);
      ghost var before := head[..];
      var c := card[i];
      next := next + [head[c]];
      head[c] := i;
      assert head[..] == before[c := i];
      if c > maxc { maxc := c; }
      if c < minc { minc := c; }
    }
    order := TakeOut(card, head, next, maxc, minc);
    Permutation(card, order);
  }

  lemma Permutation(card: seq<nat>, order: seq<nat>)
    requires SortedAbove(card, order, -1)
    ensures |order| == |card|
  {
    NoRepeatsCard(order);
    RangeCard(|card|);
    assert ToSet(order) == Range(|card|);
  }

  method TakeOut(card: seq<nat>, head: array<int>, next: seq<int>, maxc: int, minc: int) returns (order: seq<nat>)
    requires |next| == |card| && Bucketed(card, head[..], next) && 0 <= minc && maxc < head.Length
    requires forall k | 0 <= k < |card| :: minc <= card[k] <= maxc
    requires forall c | 0 <= c < head.Length && !(minc <= c <= maxc) :: head[c] == -1
    modifies head
    ensures AllEmpty(head[..]) && SortedAbove(card, order, -1)
  {
    order := [];
    ghost var heads := head[..];
    var c := maxc;
    while c >= minc
      invariant c <= maxc && (c >= minc - 1 || order == [])
      invariant SortedAbove(card, order, c)
      invariant forall k | 0 <= k < head.Length :: head[k] == if k <= c then heads[k] else -1
    {
      order := TakeChain(card, next, head[c], c, order);
      head[c] := -1;
      c := c - 1;
    }
  }

  /** Appends the chain of cardinality c. */
  method TakeChain(card: seq<nat>, next: seq<int>, first: int, c: nat, order0: seq<nat>) returns (order: seq<nat>)
    requires |next| == |card| && (forall i | 0 <= i < |next| :: -1 <= next[i] < i) && -1 <= first < |next|
    requires ChainHolds(card, next, first, c) && SortedAbove(card, order0, c)
    ensures SortedAbove(card, order, c - 1)
  {
    order := order0;
    var i := first;
    while i >= 0
      invariant -1 <= i < |next| && order + Chain(next, i) == order0 + Chain(next, first)
      decreases i
    {
      order := order + [i];
      i := next[i];
    }
    assert order == order0 + Chain(next, first);
    ChainDown(next, first);
    forall p | 0 <= p < |order| ensures order[p] < |card| && (p >= |order0| ==> card[order[p]] == c) {
      if p >= |order0| { assert order[p] in Chain(next, first); }
    }
  }

  // ---- the maximal candidates ----

  ghost predicate Cards(cand: seq<set<nat>>, card: seq<nat>) {
    |card| == |cand| && forall i | 0 <= i < |cand| :: card[i] == |cand[i]|
  }

  ghost predicate InSome(sets: seq<set<nat>>, x: set<nat>) {
    exists k :: 0 <= k < |sets| && x <= sets[k]
  }

  ghost predicate NoneLarger(cand: seq<set<nat>>, x: set<nat>) {
    x in cand && forall i | 0 <= i < |cand| :: !(x < cand[i])
  }

  ghost predicate InRange(cand: seq<set<nat>>, order: seq<nat>) {
    forall p | 0 <= p < |order| :: order[p] < |cand|
  }

  /** The confirmed sets are maximal and distinct, and contain the candidates looked at. */
  ghost predicate Confirmed(cand: seq<set<nat>>, order: seq<nat>, sets: seq<set<nat>>, n: nat)
    requires n <= |order| && InRange(cand, order)
  {
    && (forall k | 0 <= k < |sets| :: NoneLarger(cand, sets[k]))
    && Distinct(sets) && forall p | 0 <= p < n :: InSome(sets, cand[order[p]])
  }

  lemma LargerComesFirst(cand: seq<set<nat>>, card: seq<nat>, order: seq<nat>, n: nat, p: nat)
    requires Cards(cand, card) && SortedAbove(card, order, -1) && n < |order| && p < |order|
    requires cand[order[n]] < cand[order[p]]
    ensures p < n
  {
    SubsetCard(cand[order[n]], cand[order[p]]);
  }

  lemma LargerConfirmed(cand: seq<set<nat>>, card: seq<nat>, order: seq<nat>, sets: seq<set<nat>>, n: nat, i: nat)
    requires Cards(cand, card) && SortedAbove(card, order, -1) && n < |order| && i < |cand| && cand[order[n]] < cand[i]
    requires InRange(cand, order) && forall p | 0 <= p < n :: InSome(sets, cand[order[p]])
    ensures InSome(sets, cand[order[n]])
  {
    assert i in order;
    var p :| 0 <= p < |order| && order[p] == i;
    LargerComesFirst(cand, card, order, n, p);
    var k :| 0 <= k < |sets| && cand[order[p]] <= sets[k];
    assert cand[order[n]] <= sets[k];
  }

  /** What is in no confirmed set is maximal: anything larger was looked at before. */
  lemma NextIsMaximal(cand: seq<set<nat>>, card: seq<nat>, order: seq<nat>, sets: seq<set<nat>>, n: nat)
    requires Cards(cand, card) && SortedAbove(card, order, -1) && n < |order|
    requires InRange(cand, order) && forall p | 0 <= p < n :: InSome(sets, cand[order[p]])
    requires !InSome(sets, cand[order[n]])
    ensures NoneLarger(cand, cand[order[n]])
  {
    forall i | 0 <= i < |cand| ensures !(cand[order[n]] < cand[i]) {
      if cand[order[n]] < cand[i] { LargerConfirmed(cand, card, order, sets, n, i); }
    }
  }

  lemma InSomeMore(sets: seq<set<nat>>, y: set<nat>, x: set<nat>)
    ensures InSome(sets, x) ==> InSome(sets + [y], x)
    ensures InSome(sets + [y], y)
  {
    assert (sets + [y])[|sets|] == y;
    if InSome(sets, x) {
      var k :| 0 <= k < |sets| && x <= sets[k];
      assert (sets + [y])[k] == sets[k];
    }
  }

  lemma ConfirmStep(cand: seq<set<nat>>, card: seq<nat>, order: seq<nat>, sets: seq<set<nat>>, n: nat)
    requires Cards(cand, card) && SortedAbove(card, order, -1) && InRange(cand, order) && n < |order|
    requires Confirmed(cand, order, sets, n)
    ensures if InSome(sets, cand[order[n]]) then Confirmed(cand, order, sets, n + 1)
            else Confirmed(cand, order, sets + [cand[order[n]]], n + 1)
  {
    var x := cand[order[n]];
    if !InSome(sets, x) {
      NextIsMaximal(cand, card, order, sets, n);
      hide NoneLarger, SortedAbove, Cards;
      forall k | 0 <= k < |sets| ensures sets[k] != x {}
      hide InSome;
      forall p | 0 <= p < n + 1 ensures InSome(sets + [x], cand[order[p]]) {
        InSomeMore(sets, x, cand[order[p]]);
      }
    }
  }

  lemma ConfirmedCard(cand: seq<set<nat>>, card: seq<nat>, order: seq<nat>, sets: seq<set<nat>>, n: nat, y: set<nat>)
    requires Cards(cand, card) && SortedAbove(card, order, -1) && InRange(cand, order) && n < |order|
    requires (exists p :: 0 <= p < n && y == cand[order[p]])
    ensures |y| >= card[order[n]]
  {
    var p :| 0 <= p < n && y == cand[order[p]];
    assert card[order[p]] >= card[order[n]];
  }

  /** The confirmed indices stand for the confirmed sets. */
  ghost predicate Stand(cand: seq<set<nat>>, order: seq<nat>, conf: seq<nat>, sets: seq<set<nat>>, n: nat)
    requires n <= |order| && InRange(cand, order)
  {
    |conf| == |sets| && forall k | 0 <= k < |conf| ::
      conf[k] < |cand| && sets[k] == cand[conf[k]] && exists p :: 0 <= p < n && order[p] == conf[k]
  }

  /** Keeps the candidates that no confirmed one contains, going down in cardinality: equal
      cardinality leaves only equality to test. */
  method ConfirmMaximal(cand: seq<set<nat>>, card: seq<nat>, order: seq<nat>)
      returns (conf: seq<nat>, ghost sets: seq<set<nat>>)
    requires Cards(cand, card) && SortedAbove(card, order, -1) && InRange(cand, order)
    ensures Confirmed(cand, order, sets, |order|) && Stand(cand, order, conf, sets, |order|)
  {
    hide NoneLarger;
    conf, sets := [], [];
    for a := 0 to |order|
      invariant Confirmed(cand, order, sets, a) && Stand(cand, order, conf, sets, a)
    {
      var xi := order[a];
      var dominated := IsDominated(cand, card, order, conf, sets, a);
      ConfirmStep(cand, card, order, sets, a);
      hide Confirmed;
      if !dominated {
        conf, sets := conf + [xi], sets + [cand[xi]];
      }
    }
  }

  method IsDominated(cand: seq<set<nat>>, card: seq<nat>, order: seq<nat>, conf: seq<nat>, ghost sets: seq<set<nat>>,
                     a: nat)
      returns (dominated: bool)
    requires Cards(cand, card) && SortedAbove(card, order, -1) && InRange(cand, order) && a < |order|
    requires Stand(cand, order, conf, sets, a)
    ensures dominated <==> InSome(sets, cand[order[a]])
  {
    var xi := order[a];
    for j := 0 to |conf|
      invariant forall k | 0 <= k < j :: !(cand[xi] <= sets[k])
    {
      var cj := conf[j];
      ConfirmedCard(cand, card, order, sets, a, cand[cj]);
      if card[cj] == card[xi] {
        SubsetOfSameSize(cand[xi], cand[cj]);
        if cand[cj] == cand[xi] {
          return true;
        }
      } else {
        if cand[xi] <= cand[cj] {
          return true;
        }
      }
    }
    dominated := false;
  }

  lemma SubsetOfSameSize(x: set<nat>, y: set<nat>)
    requires |x| == |y|
    ensures x <= y <==> x == y
  {
    if x <= y { SubsetCard(x, y); }
  }

  /** The confirmed sets are the lower covers. */
  lemma ConfirmedAreCovers(ctx: Context, e: set<nat>, cand: seq<set<nat>>, order: seq<nat>, sets: seq<set<nat>>,
                           x: set<nat>)
    requires ctx.Valid() && IsClosed(ctx, e) && forall y :: y in cand <==> IsCandidate(ctx, e, y)
    requires InRange(cand, order) && Confirmed(cand, order, sets, |order|)
      && forall i: nat :: i in order <==> i < |cand|
    ensures IsLowerCover(ctx, e, x) <==> x in sets
  {
    hide IsLowerCover, IsCandidate, IsClosed;
    CoversAreMaximal(ctx, e, x);
    if x in sets {
      var k :| 0 <= k < |sets| && sets[k] == x;
      MaximalInList(ctx, e, cand, x);
    }
    if IsMaximal(ctx, e, x) {
      MaximalConfirmed(ctx, e, cand, order, sets, x);
    }
  }

  lemma MaximalInList(ctx: Context, e: set<nat>, cand: seq<set<nat>>, x: set<nat>)
    requires (forall y :: y in cand <==> IsCandidate(ctx, e, y)) && NoneLarger(cand, x)
    ensures IsMaximal(ctx, e, x)
  {
    hide IsCandidate;
    forall y | IsCandidate(ctx, e, y) ensures !(x < y) {
      assert y in cand;
      var i :| 0 <= i < |cand| && cand[i] == y;
    }
  }

  lemma MaximalConfirmed(ctx: Context, e: set<nat>, cand: seq<set<nat>>, order: seq<nat>, sets: seq<set<nat>>,
                         x: set<nat>)
    requires (forall y :: y in cand <==> IsCandidate(ctx, e, y)) && IsMaximal(ctx, e, x)
    requires InRange(cand, order) && Confirmed(cand, order, sets, |order|)
      && forall i: nat :: i in order <==> i < |cand|
    ensures x in sets
  {
    hide IsCandidate, NoneLarger;
    assert x in cand;
    var i: nat :| i < |cand| && cand[i] == x;
    assert i in order;
    var p :| 0 <= p < |order| && order[p] == i;
    assert InSome(sets, cand[order[p]]);
    var k :| 0 <= k < |sets| && x <= sets[k];
    ConfirmedIsCandidate(cand, sets[k]);
    assert !(x < sets[k]);
    assert x == sets[k];
  }

  lemma ConfirmedIsCandidate(cand: seq<set<nat>>, x: set<nat>)
    requires NoneLarger(cand, x)
    ensures x in cand
  {}

  /** The lower covers of one closed set, each once. */
  method LowerCoversOf(ctx: Context, e: set<nat>, intent: set<nat>, irr: seq<nat>, head: array<int>)
      returns (covers: seq<set<nat>>)
    requires ctx.Valid() && IsClosed(ctx, e) && intent == ctx.Intent(e)
    requires Derivation.Sorted(Irreducibles(ctx, |ctx.cols|), irr)
    requires AllEmpty(head[..]) && head.Length > |ctx.rows|
    modifies head
    ensures AllEmpty(head[..])
    ensures Distinct(covers) && forall x :: x in covers <==> IsLowerCover(ctx, e, x)
  {
    hide IsLowerCover, IsCandidate, Irreducible, Confirmed;
    var cand := ListCandidates(ctx, e, intent, irr);
    var card := seq(|cand|, i requires 0 <= i < |cand| => |cand[i]|);
    forall i | 0 <= i < |cand| ensures card[i] < head.Length {
      assert cand[i] in cand;
      CandidateSize(ctx, e, cand[i]);
    }
    var order := CountingSort(card, head);
    var conf, sets := ConfirmMaximal(cand, card, order);
    assert Distinct(sets) by { ConfirmedDistinct(cand, order, sets); }
    covers := seq(|conf|, k requires 0 <= k < |conf| && conf[k] < |cand| => cand[conf[k]]);
    assert covers == sets;
    forall x ensures x in covers <==> IsLowerCover(ctx, e, x) {
      ConfirmedAreCovers(ctx, e, cand, order, sets, x);
    }
  }

  lemma ConfirmedDistinct(cand: seq<set<nat>>, order: seq<nat>, sets: seq<set<nat>>)
    requires InRange(cand, order) && Confirmed(cand, order, sets, |order|)
    ensures Distinct(sets)
  {}

  lemma CandidateSize(ctx: Context, e: set<nat>, x: set<nat>)
    requires ctx.Valid() && IsClosed(ctx, e) && IsCandidate(ctx, e, x)
    ensures |x| <= |ctx.rows|
  {
    RangeCard(|ctx.rows|);
    SubsetCard(x, ctx.Objects());
  }
}
