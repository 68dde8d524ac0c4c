/** The LinCbO engine: one iterative search with an explicit stack, an incremental linear
    closure whose counters are inherited from the parent node, and three pruning modes. */
module LinCboEngine {
  import opened FiniteSets
  import opened FormalContext
  import opened Implications
  import opened LinCboReference
  import opened Pruning
  import Derivation

  datatype PruneMode = NoPruning | Lifo | Lcm

  /** C's INT_MIN: "no child result to apply". */
  const NO_RESULT: int := -0x8000_0000

  /** count[k] is the number of attributes that premise k still misses in `have`. */
  ghost predicate CountsFor(impls: seq<Implication>, count: seq<int>, have: set<nat>) {
    && |count| <= |impls|
    && forall k | 0 <= k < |count| :: count[k] == |impls[k].premise - have|
  }

  /** Whatever premise lies inside `have` has its closure inside d. */
  ghost predicate Settled(impls: seq<Implication>, have: set<nat>, d: set<nat>) {
    forall k | 0 <= k < |impls| && impls[k].premise <= have :: impls[k].closure <= d
  }

  /** Every superset of b that respects the list contains d. */
  ghost predicate Forced(impls: seq<Implication>, b: set<nat>, d: set<nat>) {
    forall x: set<nat> | b <= x && Respects(impls, x) :: d <= x
  }

  /** What a call of LinClosureRC may rely on: the inherited counters describe b - z, and
      the premises found since then do not meet z, so counting them against b is as good. */
  ghost predicate ClosureInput(impls: seq<Implication>, b: set<nat>, z: set<nat>, prevCount: seq<int>) {
    && z <= b
    && CountsFor(impls, prevCount, b - z)
    && (forall k | |prevCount| <= k < |impls| :: impls[k].premise * z == {})
    && Settled(impls, b - z, b)
  }

  /** Row a of the index: the implications whose premise holds attribute a, in order. */
  ghost predicate IndexRow(impls: seq<Implication>, row: seq<nat>, a: nat) {
    && (forall p, q | 0 <= p < q < |row| :: row[p] < row[q])
    && (forall k: nat :: k in row <==> k < |impls| && a in impls[k].premise)
  }

  lemma FiredForced(impls: seq<Implication>, b: set<nat>, d: set<nat>, id: nat)
    requires id < |impls| && impls[id].premise <= d && Forced(impls, b, d)
    ensures Forced(impls, b, d + impls[id].closure)
    ensures forall a | a in impls[id].closure :: Forced(impls, b, {a})
  {
    forall x: set<nat> | b <= x && Respects(impls, x) ensures impls[id].closure <= x {
      assert d <= x;
    }
  }

  /** The counters while the attribute m is being taken out of the work set: the
      implications of `done` have been counted down. */
  ghost predicate RowCounts(impls: seq<Implication>, count: seq<int>, have: set<nat>, done: seq<nat>) {
    && |count| == |impls|
    && forall k | 0 <= k < |impls| :: count[k] == |impls[k].premise - have| - (if k in done then 1 else 0)
  }

  ghost predicate RowSettled(impls: seq<Implication>, have: set<nat>, m: nat, done: seq<nat>, d: set<nat>) {
    forall k | 0 <= k < |impls| && k in done && impls[k].premise <= have + {m} :: impls[k].closure <= d
  }

  lemma RowCountsStep(impls: seq<Implication>, count: seq<int>, have: set<nat>, m: nat, done: seq<nat>, id: nat)
    requires RowCounts(impls, count, have, done) && id < |impls| && id !in done && m in impls[id].premise && m !in have
    ensures RowCounts(impls, count[id := count[id] - 1], have, done + [id])
    ensures count[id] == 1 <==> impls[id].premise <= have + {m}
  {
    RemoveOne(impls[id].premise, have, m);
    NoneMissing(impls[id].premise, have + {m});
  }

  /** The next implication of the row: its closure is there if its premise is. */
  lemma RowSettledStep(impls: seq<Implication>, have: set<nat>, m: nat, done: seq<nat>, id: nat, d0: set<nat>,
                       d: set<nat>)
    requires RowSettled(impls, have, m, done, d0) && Settled(impls, have, d0) && d0 <= d && id < |impls|
    requires impls[id].premise <= have + {m} ==> impls[id].closure <= d
    ensures RowSettled(impls, have, m, done + [id], d) && Settled(impls, have, d)
  {}

  lemma RowNext(impls: seq<Implication>, row: seq<nat>, m: nat, li: nat)
    requires IndexRow(impls, row, m) && li < |row|
    ensures row[li] < |impls| && m in impls[row[li]].premise && row[li] !in row[..li]
    ensures row[..li + 1] == row[..li] + [row[li]]
  {
    assert row[li] in row;
  }

  lemma RowDone(impls: seq<Implication>, count: seq<int>, have: set<nat>, m: nat, row: seq<nat>, d: set<nat>)
    requires RowCounts(impls, count, have, row) && RowSettled(impls, have, m, row, d) && Settled(impls, have, d)
    requires IndexRow(impls, row, m) && m !in have
    ensures CountsFor(impls, count, have + {m}) && Settled(impls, have + {m}, d)
  {
    forall k | 0 <= k < |impls|
      ensures count[k] == |impls[k].premise - (have + {m})|
      ensures impls[k].premise <= have + {m} ==> impls[k].closure <= d
    {
      RemoveOne(impls[k].premise, have, m);
    }
  }

  lemma DisjointDifference(p: set<nat>, b: set<nat>, z: set<nat>)
    requires p * z == {}
    ensures p - b == p - (b - z)
  {
    forall a | a in p ensures a !in z {
      assert a !in p * z;
    }
  }

  /** The state of the linear closure: d is reached from b, and adds nothing below y. */
  ghost predicate Reached(impls: seq<Implication>, u: set<nat>, b: set<nat>, y: int, d: set<nat>, work: set<nat>) {
    work <= d <= u && b <= d && Forced(impls, b, d) && AddsNothingBelow(d, b, y)
  }

  /** An attribute below y that the closure of b would add. */
  ghost predicate Blocks(impls: seq<Implication>, b: set<nat>, y: int, fail: int) {
    0 <= fail < y && fail !in b && Forced(impls, b, {fail})
  }

  lemma RowStart(impls: seq<Implication>, u: set<nat>, b: set<nat>, y: int, d0: set<nat>, work0: set<nat>,
                 count0: seq<int>, m: nat)
    requires Reached(impls, u, b, y, d0, work0) && m in work0
    requires |count0| == |impls| && CountsFor(impls, count0, d0 - work0) && Settled(impls, d0 - work0, d0)
    ensures Reached(impls, u, b, y, d0, work0 - {m}) && d0 - (work0 - {m}) == d0 - work0 + {m} && m !in d0 - work0
    ensures RowCounts(impls, count0, d0 - work0, []) && RowSettled(impls, d0 - work0, m, [], d0)
  {}

  /** Takes the attribute m out of the work set and fires the implications whose last
      missing premise attribute it was. */
  method Propagate(mode: PruneMode, impls: seq<Implication>, row: seq<nat>, n: nat, ghost u: set<nat>,
                   b: set<nat>, y: int, d0: set<nat>, work0: set<nat>, count0: seq<int>, m: nat)
    returns (ok: bool, d: set<nat>, work: set<nat>, count: seq<int>, fail: int)
    requires n < INT_MAX && y < n && (forall a | a in u :: a < n) && Within(impls, u) && IndexRow(impls, row, m)
    requires Reached(impls, u, b, y, d0, work0) && m in work0
    requires |count0| == |impls| && CountsFor(impls, count0, d0 - work0) && Settled(impls, d0 - work0, d0)
    ensures ok ==> Reached(impls, u, b, y, d, work) && d - work == d0 - work0 + {m}
    ensures ok ==> |count| == |impls| && CountsFor(impls, count, d - work) && Settled(impls, d - work, d)
    ensures !ok ==> Blocks(impls, b, y, fail)
  {
    ghost var have := d0 - work0;
    d, work, count, fail := d0, work0 - {m}, count0, -1;
    RowStart(impls, u, b, y, d0, work0, count0, m);
    hide Reached, RowCounts, Settled, RowSettled, CountsFor, IndexRow;
    for li := 0 to |row|
      invariant Reached(impls, u, b, y, d, work) && d - work == have + {m}
      invariant RowCounts(impls, count, have, row[..li])
      invariant Settled(impls, have, d) && RowSettled(impls, have, m, row[..li], d)
    {
      var id := row[li];
      RowNext(impls, row, m, li);
      var c := count[id];
      RowCountsStep(impls, count, have, m, row[..li], id);
      count := count[id := c - 1];
      ghost var before := d;
      if c == 1 {
        var cut;
        cut, d, work, fail := Fire(mode, impls, n, u, b, y, d, work, id);
        if cut {
          return false, d, work, count, fail;
        }
      }
      RowSettledStep(impls, have, m, row[..li], id, before, d);
    }
    assert row[..|row|] == row;
    RowDone(impls, count, have, m, row, d);
    ok := true;
  }

  /** Adds the closure of implication id, unless that adds an attribute below y. */
  method Fire(mode: PruneMode, impls: seq<Implication>, n: nat, ghost u: set<nat>, b: set<nat>, y: int,
              d0: set<nat>, work0: set<nat>, id: nat)
    returns (cut: bool, d: set<nat>, work: set<nat>, fail: int)
    requires n < INT_MAX && y < n && id < |impls| && Within(impls, u) && (forall a | a in u :: a < n)
    requires Reached(impls, u, b, y, d0, work0) && impls[id].premise <= d0
    ensures cut ==> Blocks(impls, b, y, fail)
    ensures !cut ==> Reached(impls, u, b, y, d, work)
    ensures !cut ==> d == d0 + impls[id].closure && d - work == d0 - work0
  {
    cut, d, work, fail := false, d0, work0, -1;
    var closure := impls[id].closure;
    FiredForced(impls, b, d0, id);
    if mode == NoPruning {
      var closureMin := Derivation.FindFirst(closure, n);
      if closureMin < y {
        var minD := Derivation.FindFirst(d, n);
        if minD >= y {
          return true, d, work, closureMin;
        }
      }
    }
    var added := closure - d;
    var minBit := Derivation.FindFirst(added, n);
    d := d + added;
    assert d == d0 + closure;
    work := work + added;
    if minBit < y {
      return true, d, work, minBit;
    }
  }

  /** What is still to be done: the remaining children of every node on the stack. */
  ghost function Resume(ctx: Context, l: seq<Implication>, frames: seq<Frame>): seq<Implication>
    requires ctx.Valid() && Within(l, ctx.Attributes())
    requires forall k | 0 <= k < |frames| :: FrameOk(ctx, frames[k])
    decreases |frames|
  {
    if frames == [] then l
    else
      var f := frames[|frames| - 1];
      assert FrameOk(ctx, f);
      Resume(ctx, Children(ctx, l, f.closed, f.y, f.i), frames[..|frames| - 1])
  }

  /** The counters of a node stay usable for its children: the implications listed since
      then agree with the node below its current child. */
  ghost predicate CountOk(ctx: Context, impls: seq<Implication>, f: Frame) {
    f.closed == ctx.Attributes() || (
      && CountsFor(impls, f.count, f.closed)
      && forall k | |f.count| <= k < |impls| :: Agrees(impls[k].premise, f.closed, f.i))
  }

  ghost predicate CountsOk(ctx: Context, impls: seq<Implication>, frames: seq<Frame>) {
    forall k | 0 <= k < |frames| :: CountOk(ctx, impls, frames[k])
  }

  ghost predicate ClosuresOf(ctx: Context, l: seq<Implication>) {
    forall k | 0 <= k < |l| :: l[k].closure == ctx.Closure(l[k].premise)
  }

  /** Counter reuse: the counters of an intent serve each of its children. */
  lemma ChildInput(ctx: Context, impls: seq<Implication>, f: Frame, i: nat)
    requires ctx.Valid() && ClosuresOf(ctx, impls) && FrameOk(ctx, f) && CountOk(ctx, impls, f)
    requires i < f.i && i !in f.closed
    ensures ClosureInput(impls, f.closed + {i}, {i}, f.count)
  {
    var b := f.closed + {i};
    assert b - {i} == f.closed;
    IntentSettles(ctx, impls, f.closed, b);
    forall k | |f.count| <= k < |impls| ensures impls[k].premise * {i} == {} {
      assert Agrees(impls[k].premise, f.closed, f.i);
      assert i !in impls[k].premise;
    }
  }

  /** A child with one attribute starts from the premise sizes. */
  lemma SingletonInput(ctx: Context, impls: seq<Implication>, template: seq<int>, f: Frame, i: nat)
    requires ctx.Valid() && ClosuresOf(ctx, impls) && FrameOk(ctx, f) && f.closed == {}
    requires |template| == |impls| && CountsFor(impls, template, {})
    ensures ClosureInput(impls, f.closed + {i}, {i}, template)
  {
    assert f.closed + {i} - {i} == {};
    IntentSettles(ctx, impls, {}, {i});
  }

  lemma IntentSettles(ctx: Context, impls: seq<Implication>, c: set<nat>, b: set<nat>)
    requires ClosuresOf(ctx, impls) && ctx.Closure(c) == c <= b
    ensures Settled(impls, c, b)
  {
    forall k | 0 <= k < |impls| && impls[k].premise <= c ensures impls[k].closure <= b {
      ClosureMonotone(ctx, impls[k].premise, c);
    }
  }

  /** ... and after the pseudo-intent d was listed, the counters of d serve its closure. */
  lemma ExtensionInput(ctx: Context, impls: seq<Implication>, impls': seq<Implication>, count: seq<int>,
                       d: set<nat>, c: set<nat>)
    requires |impls'| == |impls| + 1 && impls <= impls' && impls'[|impls|].premise == d && impls'[|impls|].closure == c
    requires Respects(impls, d) && d <= c && |count| == |impls| && CountsFor(impls, count, d)
    ensures ClosureInput(impls', c, c - d, count)
  {
    assert c - (c - d) == d;
    assert forall k | 0 <= k < |impls| :: impls'[k] == impls[k];
  }

  /** Implications found in the subtree of the current child of the top node leave all
      counters on the stack usable. */
  lemma CountsStay(ctx: Context, impls: seq<Implication>, impls': seq<Implication>, frames: seq<Frame>)
    requires FramesOk(ctx, frames) && CountsOk(ctx, impls, frames) && impls <= impls' && frames != []
    requires var f := frames[|frames| - 1];
      forall k | |impls| <= k < |impls'| :: Agrees(impls'[k].premise, f.closed + {f.i}, f.i)
    ensures CountsOk(ctx, impls', frames)
  {
    hide Context.Attributes;
    var top := frames[|frames| - 1];
    forall j | 0 <= j < |frames| ensures CountOk(ctx, impls', frames[j]) {
      var f := frames[j];
      assert CountOk(ctx, impls, f);
      forall k | |impls| <= k < |impls'| ensures Agrees(impls'[k].premise, f.closed, f.i) {
        assert Agrees(impls'[k].premise, top.closed + {top.i}, top.i);
        if j < |frames| - 1 { assert Inside(f, top); }
      }
      assert forall k | 0 <= k < |impls| :: impls'[k] == impls[k];
    }
  }

  /** The variables of the engine's loop: the stack and, when a node is to be entered, its
      arguments. */
  datatype Loop = Loop(frames: seq<Frame>, entering: bool, b: set<nat>, y: int, z: set<nat>, prev: seq<int>)

  class Engine {
    const ctx: Context
    const mode: PruneMode
    var impls: seq<Implication>
    /** per attribute: the implications it is a premise of */
    var list: seq<seq<nat>>
    var countsTemplate: seq<int>
    var hasDefaultConclusion: bool
    var defaultConclusion: set<nat>
    /** LIFO pruning: per attribute the rule in force, -1 for none */
    const rules: array<int>
    var pruningStack: seq<nat>
    /** LCM pruning: the same, with a stack kept sorted per node */
    const pruningData: array<int>
    var pruningStackLcm: seq<nat>

    constructor (ctx: Context, mode: PruneMode)
      requires ctx.Valid()
      ensures Valid() && impls == [] && this.ctx == ctx && this.mode == mode
      ensures fresh(rules) && fresh(pruningData) && Pruned(impls, [])
    {
      this.ctx, this.mode := ctx, mode;
      impls, countsTemplate := [], [];
      list := seq(|ctx.cols|, _ => []);
      hasDefaultConclusion, defaultConclusion := false, {};
      rules := new int[|ctx.cols|](_ => -1);
      pruningData := new int[|ctx.cols|](_ => -1);
      pruningStack, pruningStackLcm := [], [];
    }

    ghost predicate Valid()
      reads this
    {
      && ctx.Valid()
      && Within(impls, ctx.Attributes()) && ClosuresOf(ctx, impls)
      && IndexOk(impls, list, |ctx.cols|)
      && |countsTemplate| == |impls| && CountsFor(impls, countsTemplate, {})
      && (hasDefaultConclusion ==> DefaultOk(impls, defaultConclusion))
      && rules.Length == pruningData.Length == |ctx.cols| && rules != pruningData
    }

    /** The pruning state fits the nodes on the stack. */
    ghost predicate Pruned(l: seq<Implication>, frames: seq<Frame>)
      requires Within(l, ctx.Attributes()) && FramesOk(ctx, frames)
      reads this, rules, pruningData
    {
      && (mode == Lifo ==> LifoOk(ctx, l, frames, rules[..], pruningStack))
      && (mode == Lcm ==> LcmOk(ctx, l, frames, pruningData[..], pruningStackLcm))
    }

    /** The current child of the top node carries no rule. */
    ghost predicate Pending(frames: seq<Frame>)
      reads this
    {
      mode == Lcm && frames != [] ==> frames[|frames| - 1].i !in pruningStackLcm
    }

    /** The current child of the top node may be entered. */
    ghost predicate Ready(frames: seq<Frame>)
      reads this, pruningData
    {
      mode == Lcm && frames != [] ==>
        && (forall p | 0 <= p < |pruningStackLcm| :: pruningStackLcm[p] < |pruningData[..]|)
        && LcmReady(frames, pruningData[..], pruningStackLcm)
    }

    /** The least superset of b that respects the list, computed from the attributes z
        added last; or the attribute below y that the closure would add. */
    method LinClosureRC(b: set<nat>, y: int, z: set<nat>, prevCount: seq<int>)
      returns (ok: bool, d: set<nat>, count: seq<int>, fail: int)
      requires Valid() && Node(ctx, impls, b, y) && ClosureInput(impls, b, z, prevCount)
      ensures ok ==> d == Saturate(impls, ctx.Attributes(), b) && AddsNothingBelow(d, b, y)
      ensures ok ==> b <= d <= ctx.Attributes()
      ensures ok ==> CountsFor(impls, count, d) && (|count| == |impls| || (count == [] && d == ctx.Attributes()))
      ensures !ok ==> 0 <= fail < y && fail in Saturate(impls, ctx.Attributes(), b) && fail !in b
    {
      d := b;
      SaturateIsLeast(impls, ctx.Attributes(), b);
      if hasDefaultConclusion {
        DefaultInside(impls, defaultConclusion, b - z, b);
        d := d + defaultConclusion;
        assert d == b;
      }
      count := InitialCounts(b, z, prevCount);
      var work := z;
      fail := -1;
      while true
        invariant Reached(impls, ctx.Attributes(), b, y, d, work)
        invariant |count| == |impls| && CountsFor(impls, count, d - work)
        invariant Settled(impls, d - work, d)
        decreases ctx.Attributes() - (d - work)
      {
        var m := Derivation.FindFirst(work, |ctx.cols|);
        if m >= |ctx.cols| { break; }
        ok, d, work, count, fail := Propagate(mode, impls, list[m], |ctx.cols|, ctx.Attributes(), b, y, d, work,
                                              count, m);
        if !ok {
          assert fail in Saturate(impls, ctx.Attributes(), b);
          return;
        }
        if |d| == |ctx.cols| {
          RangeCard(|ctx.cols|);
          SubsetCard(d, ctx.Attributes());
          LeastUnique(impls, b, d, Saturate(impls, ctx.Attributes(), b));
          return true, d, [], -1;
        }
      }
      assert d - work == d;
      LeastUnique(impls, b, d, Saturate(impls, ctx.Attributes(), b));
      ok := true;
    }

    method InitialCounts(b: set<nat>, z: set<nat>, prevCount: seq<int>) returns (count: seq<int>)
      requires ClosureInput(impls, b, z, prevCount)
      ensures |count| == |impls| && CountsFor(impls, count, b - z)
    {
      count := prevCount;
      for k := |prevCount| to |impls|
        invariant |count| == k
        invariant CountsFor(impls, count, b - z)
      {
        assert impls[k].premise * z == {};
        DisjointDifference(impls[k].premise, b, z);
        count := count + [|impls[k].premise - b|];
      }
    }


    method AddImplication(premise: set<nat>, closure: set<nat>, support: set<nat>)
      requires Valid() && premise <= ctx.Attributes() && closure == ctx.Closure(premise)
      modifies `impls, `list, `countsTemplate, `hasDefaultConclusion, `defaultConclusion
      ensures Valid() && impls == old(impls) + [Implication(premise, closure, support)]
    {
      var imp := Implication(premise, closure, support);
      var id := |impls|;
      ClosureExtensive(ctx, premise);
      hide Context.Valid, Context.Closure, Within, ClosuresOf, CountsFor, DefaultOk, IndexOk;
      AppendImplication(ctx, impls, imp, countsTemplate);
      impls := impls + [imp];
      countsTemplate := countsTemplate + [|premise|];
      KeepDefault(old(impls), imp);
      IndexPremise(old(impls), id, premise);
    }

    /** What the empty premise implies is added to the default conclusion. */
    method KeepDefault(ghost before: seq<Implication>, imp: Implication)
      requires impls == before + [imp] && (hasDefaultConclusion ==> DefaultOk(before, defaultConclusion))
      modifies `hasDefaultConclusion, `defaultConclusion
      ensures hasDefaultConclusion ==> DefaultOk(impls, defaultConclusion)
    {
      NoDefault(before);
      DefaultGrows(before, imp, if hasDefaultConclusion then defaultConclusion else {});
      hide DefaultOk;
      if imp.premise == {} {
        if !hasDefaultConclusion {
          defaultConclusion := {};
          hasDefaultConclusion := true;
        }
        defaultConclusion := defaultConclusion + imp.closure;
      }
    }

    method IndexPremise(ghost before: seq<Implication>, id: nat, premise: set<nat>)
      requires |impls| == |before| + 1 && before <= impls && id == |before| && impls[id].premise == premise
      requires IndexOk(before, list, |ctx.cols|)
      modifies `list
      ensures IndexOk(impls, list, |ctx.cols|)
    {
      for a := 0 to |ctx.cols|
        invariant |list| == |ctx.cols|
        invariant forall a' | 0 <= a' < a :: IndexRow(impls, list[a'], a')
        invariant forall a' | a <= a' < |list| :: IndexRow(before, list[a'], a')
      {
        IndexRowGrows(before, impls, list[a], a);
        if a in premise {
          list := list[a := list[a] + [id]];
        }
      }
    }

    /** The branch of the closure loop: follows the extensions b -> b'' in place until it
        reaches an intent, is cut, or leaves the canonical region. */
    method Enter(b0: set<nat>, y: int, z0: set<nat>, prevCount: seq<int>)
      returns (entered: bool, closed: set<nat>, count: seq<int>, result: int)
      requires Valid() && Node(ctx, impls, b0, y) && ClosureInput(impls, b0, z0, prevCount)
      modifies `impls, `list, `countsTemplate, `hasDefaultConclusion, `defaultConclusion
      ensures Valid() && old(impls) <= impls
      ensures AgreeSince(impls, |old(impls)|, b0, y)
      ensures entered ==>
        && b0 <= closed <= ctx.Attributes() && Agrees(closed, b0, y) && ctx.Closure(closed) == closed
        && Step(ctx, old(impls), b0, y) == Children(ctx, impls, closed, y, |ctx.cols|)
      ensures entered ==> closed == ctx.Attributes() || (|count| == |impls| && CountsFor(impls, count, closed))
      ensures !entered ==> Step(ctx, old(impls), b0, y) == impls
      ensures !entered && result != -1 ==>
        0 <= result < y && result !in b0 && result in Saturate(impls, ctx.Attributes(), b0)
    {
      hide Step, Children, Saturate, IndexOk, DefaultOk, ClosureInput, ClosuresOf, CountsFor, Context.Valid,
          Within, Context.Intent, Respects;
      var b, z, prev := b0, z0, prevCount;
      ghost var total := Step(ctx, impls, b0, y);
      closed := {};
      while true
        invariant Valid() && Node(ctx, impls, b, y) && ClosureInput(impls, b, z, prev)
        invariant old(impls) <= impls && b0 <= b && Agrees(b, b0, y) && Forced(impls, b0, b)
        invariant AgreeSince(impls, |old(impls)|, b0, y)
        invariant total == Step(ctx, impls, b, y)
        decreases ctx.Attributes() - b
      {
        var ok, d, cnt, fail := LinClosureRC(b, y, z, prev);
        count := cnt;
        if !ok {
          BlockedResult(ctx, impls, b0, b, y, fail);
          return false, closed, count, fail;
        }
        var bclosure, extent := RealClosure(d);
        if d != bclosure {
          ghost var before := impls;
          AddImplication(d, bclosure, extent);
          ListedExtension(ctx, before, impls, |old(impls)|, b0, b, y, d);
          var zp := bclosure - d;
          var minZp := Derivation.FindFirst(zp, |ctx.cols|);
          StepExtends(ctx, before, b, y, d, bclosure, zp, minZp);
          if minZp != INT_MAX && minZp > y {
            ExtensionInput(ctx, before, impls, count, d, bclosure);
            b, z, prev := bclosure, zp, count;
          } else {
            return false, closed, count, -1;
          }
        } else {
          StepIntent(ctx, impls, b0, b, y, d);
          return true, bclosure, count, -1;
        }
      }
    }

    method RealClosure(attrs: set<nat>) returns (closure: set<nat>, extent: set<nat>)
      requires ctx.Valid() && attrs <= ctx.Attributes()
      ensures extent == ctx.Extent(attrs) && closure == ctx.Closure(attrs)
      ensures attrs <= closure <= ctx.Attributes()
    {
      extent := Derivation.ComputeExtent(ctx, attrs);
      closure := Derivation.DenseComputeIntent(ctx, extent);
      ClosureExtensive(ctx, attrs);
      closure := closure + attrs;
    }

    // ---- pruning ----

    function PruningSnapshot(): nat
      reads this
    {
      if mode == Lcm then |pruningStackLcm| else |pruningStack|
    }

    /** Pops the rules of the top node that its child att may add itself. */
    method LcmPruningDel(att: int, prev: nat)
      requires prev <= |pruningStackLcm| && LcmMarks(pruningData[..], pruningStackLcm)
      modifies `pruningStackLcm, pruningData
      ensures pruningStackLcm <= old(pruningStackLcm) && prev <= |pruningStackLcm|
      ensures Cleared(old(pruningData[..]), pruningData[..], old(pruningStackLcm)[|pruningStackLcm|..])
      ensures |pruningStackLcm| > prev ==>
        pruningData[pruningStackLcm[|pruningStackLcm| - 1]] < att
      ensures att == -1 ==> |pruningStackLcm| == prev
    {
      while |pruningStackLcm| > prev
        invariant pruningStackLcm <= old(pruningStackLcm) && prev <= |pruningStackLcm|
        invariant Cleared(old(pruningData[..]), pruningData[..], old(pruningStackLcm)[|pruningStackLcm|..])
        decreases |pruningStackLcm|
      {
        var size := |pruningStackLcm|;
        var top := pruningStackLcm[size - 1];
        ghost var was := old(pruningStackLcm);
        assert top == was[size - 1] && top !in was[size..];
        assert was[size - 1..] == [top] + was[size..];
        if pruningData[top] >= att {
          pruningStackLcm := pruningStackLcm[..size - 1];
          pruningData[top] := -1;
        } else {
          break;
        }
      }
    }

    /** Inserts att above the rules of the top node that add no more than `adds`. */
    method LcmPruningSet(att: nat, adds: int, prev: nat) returns (ghost pos: nat)
      requires prev <= |pruningStackLcm| && att < pruningData.Length
      requires forall p | 0 <= p < |pruningStackLcm| :: pruningStackLcm[p] < pruningData.Length
      requires forall p, q | prev <= p < q < |pruningStackLcm| ::
        pruningData[pruningStackLcm[p]] <= pruningData[pruningStackLcm[q]]
      modifies `pruningStackLcm, pruningData
      ensures prev <= pos <= |old(pruningStackLcm)|
      ensures pruningStackLcm == Inserted(old(pruningStackLcm), att, pos)
      ensures pruningData[..] == old(pruningData[..])[att := adds]
      ensures forall q | prev <= q < pos :: old(pruningData[pruningStackLcm[q]]) <= adds
      ensures forall q | pos <= q < |old(pruningStackLcm)| :: adds < old(pruningData[pruningStackLcm[q]])
    {
      ghost var was := pruningStackLcm;
      hide Shifted, Inserted;
      var cur := |pruningStackLcm|;
      ShiftStarts(was, att);
      pruningStackLcm := pruningStackLcm + [att];
      while cur > prev
        modifies `pruningStackLcm
        invariant prev <= cur <= |was| == |pruningStackLcm| - 1 && Shifted(pruningStackLcm, was, cur)
        invariant forall q | cur <= q < |was| :: adds < pruningData[was[q]]
      {
        ShiftedBelow(pruningStackLcm, was, cur);
        if pruningData[pruningStackLcm[cur - 1]] <= adds { break; }
        ShiftOne(pruningStackLcm, was, cur);
        pruningStackLcm := pruningStackLcm[cur := pruningStackLcm[cur - 1]];
        cur := cur - 1;
      }
      ShiftEnds(pruningStackLcm, was, cur, att);
      pruningStackLcm := pruningStackLcm[cur := att];
      pruningData[att] := adds;
      pos := cur;
    }

    /** The call for child i of the top node returned `result`: -1, or an attribute below i
        that the child would have had to add. */
    method PruningAfterChild(ghost frames: seq<Frame>, i: nat, result: int, snapshot: nat)
      requires Valid() && FramesOk(ctx, frames) && frames != [] && Pruned(impls, frames) && Pending(frames)
      requires i == frames[|frames| - 1].i && snapshot == frames[|frames| - 1].snapshot
      requires var c := frames[|frames| - 1].closed;
        result != -1 ==> Forces(ctx, impls, c, i, result) && result !in c
      modifies `pruningStack, `pruningStackLcm, rules, pruningData
      ensures Valid() && Pruned(impls, frames)
    {
      hide Context.Valid, FramesOk, Within, CountsFor, LifoOk, Saturate;
      if mode == Lifo {
        if result >= 0 && result < i {
          LifoPushed(ctx, impls, frames, rules[..], pruningStack, i, result);
          rules[i] := result;
          pruningStack := pruningStack + [i];
          assert rules[..] == old(rules[..])[i := result];
        }
      } else if mode == Lcm {
        if result != -1 {
          ghost var stack, data := pruningStackLcm, pruningData[..];
          TopSorted(frames, data, stack);
          ghost var pos := LcmPruningSet(i, result, snapshot);
          LcmInserted(ctx, impls, frames, data, stack, i, result, pos);
        }
      }
    }

    /** Whether the child bp of the top node may be left out.  It may only when its call
        would return at once. */
    method PruningShouldSkip(ghost frames: seq<Frame>, i: nat, bp: set<nat>, snapshot: nat) returns (skip: bool)
      requires Valid() && FramesOk(ctx, frames) && frames != [] && Pruned(impls, frames)
      requires var f := frames[|frames| - 1];
        f.y < i < f.i && bp == f.closed + {i} && snapshot == f.snapshot
      modifies `pruningStackLcm, pruningData
      ensures Valid() && Pruned(impls, frames)
      ensures skip ==> CutAtOnce(ctx, impls, bp, i)
      ensures !skip ==> Ready(SetTop(frames, i))
    {
      hide Step, IndexOk, DefaultOk, ClosuresOf, CountsFor;
      if mode == Lifo {
        var r := rules[i];
        skip := r != -1 && r !in bp;
        if skip {
          LifoSkipIsCut(ctx, impls, frames, rules[..], pruningStack, i);
        }
      } else if mode == Lcm {
        skip := LcmShouldSkip(frames, i, bp, snapshot);
      } else {
        skip := false;
      }
    }

    method LcmShouldSkip(ghost frames: seq<Frame>, i: nat, ghost bp: set<nat>, snapshot: nat) returns (skip: bool)
      requires Valid() && FramesOk(ctx, frames) && frames != [] && Pruned(impls, frames) && mode == Lcm
      requires var f := frames[|frames| - 1];
        f.y < i < f.i && bp == f.closed + {i} && snapshot == f.snapshot
      modifies `pruningStackLcm, pruningData
      ensures Valid() && Pruned(impls, frames)
      ensures skip ==> CutAtOnce(ctx, impls, bp, i)
      ensures !skip ==> Ready(SetTop(frames, i))
    {
      hide Step, IndexOk, DefaultOk, ClosuresOf, CountsFor, CutAtOnce, Context.Attributes, Context.Closure,
          Context.Valid, Within, Saturate;
      ghost var stack, data := pruningStackLcm, pruningData[..];
      LcmPruningDel(i, snapshot);
      ghost var m := |pruningStackLcm|;
      assert pruningStackLcm == stack[..m];
      LcmDropped(ctx, impls, frames, data, stack, pruningData[..], m);
      TopSorted(frames, pruningData[..], pruningStackLcm);
      skip := pruningData[i] != -1;
      if skip {
        LcmSkipIsCut(ctx, impls, frames, pruningData[..], pruningStackLcm, i);
      }
    }

    method LifoUnwindTo(snapshot: nat)
      requires snapshot <= |pruningStack|
      requires forall p | 0 <= p < |pruningStack| :: pruningStack[p] < rules.Length
      modifies `pruningStack, rules
      ensures pruningStack == old(pruningStack)[..snapshot]
      ensures Cleared(old(rules[..]), rules[..], old(pruningStack)[snapshot..])
    {
      while |pruningStack| > snapshot
        invariant snapshot <= |pruningStack| && pruningStack <= old(pruningStack)
        invariant Cleared(old(rules[..]), rules[..], old(pruningStack)[|pruningStack|..])
        decreases |pruningStack|
      {
        var size := |pruningStack|;
        var val := pruningStack[size - 1];
        assert old(pruningStack)[size - 1..] == [val] + old(pruningStack)[size..];
        pruningStack := pruningStack[..size - 1];
        rules[val] := -1;
      }
    }

    /** The rules of the top node go away with it. */
    method PruningUnwind(ghost frames: seq<Frame>, snapshot: nat)
      requires Valid() && FramesOk(ctx, frames) && frames != [] && Pruned(impls, frames)
      requires snapshot == frames[|frames| - 1].snapshot
      modifies `pruningStack, `pruningStackLcm, rules, pruningData
      ensures Valid() && FramesOk(ctx, frames[..|frames| - 1]) && Pruned(impls, frames[..|frames| - 1])
      ensures Pending(frames[..|frames| - 1])
    {
      ghost var rest := frames[..|frames| - 1];
      FramesPrefix(ctx, frames);
      if mode == Lifo {
        ghost var stack, data := pruningStack, rules[..];
        LifoUnwindTo(snapshot);
        LifoUnwound(ctx, impls, frames, data, stack, rules[..]);
      } else if mode == Lcm {
        ghost var stack, data := pruningStackLcm, pruningData[..];
        LcmPruningDel(-1, snapshot);
        assert pruningStackLcm == stack[..snapshot];
        LcmDropped(ctx, impls, frames, data, stack, pruningData[..], snapshot);
        LcmUnwound(ctx, impls, frames, pruningData[..], pruningStackLcm);
        if rest != [] {
          assert ChildUnmarked(frames[|rest| - 1], stack[..frames[|rest|].snapshot]);
        }
      }
    }

    /** The loop over the children of the top node, down to the next one to enter. */
    method NextChild(frames0: seq<Frame>)
      returns (frames: seq<Frame>, descended: bool, b: set<nat>, z: set<nat>, prev: seq<int>)
      requires Valid() && FramesOk(ctx, frames0) && frames0 != []
      requires Pruned(impls, frames0) && CountsOk(ctx, impls, frames0)
      modifies `pruningStackLcm, pruningData
      ensures Valid() && |frames| == |frames0|
        && frames0[|frames| - 1].y < frames[|frames| - 1].i <= frames0[|frames| - 1].i
      ensures frames == SetTop(frames0, frames[|frames| - 1].i)
      ensures FramesOk(ctx, frames) && Pruned(impls, frames) && CountsOk(ctx, impls, frames)
      ensures !descended ==> frames[|frames| - 1].i == frames[|frames| - 1].y + 1
      ensures !descended ==> Resume(ctx, impls, frames) == Resume(ctx, impls, frames0)
      ensures descended ==> var f := frames[|frames| - 1];
        && f.i < frames0[|frames| - 1].i && f.i !in f.closed && b == f.closed + {f.i}
        && Node(ctx, impls, b, f.i) && ClosureInput(impls, b, z, prev)
        && Resume(ctx, Step(ctx, impls, b, f.i), frames) == Resume(ctx, impls, frames0)
      ensures descended ==> Ready(frames)
    {
      hide LifoOk, LcmOk, Step, Children, ClosureInput, Context.Valid, Engine.Pruned, IndexOk, Inside, Resume,
          CountsFor, DefaultOk, Saturate, Context.Extent;
      frames, descended, b, z, prev := frames0, false, {}, {}, [];
      var top := |frames0| - 1;
      while frames[top].i > frames[top].y + 1
        invariant |frames| == |frames0| && frames0[top].y < frames[top].i <= frames0[top].i
        invariant frames == SetTop(frames0, frames[top].i)
        invariant Valid() && FramesOk(ctx, frames) && Pruned(impls, frames) && CountsOk(ctx, impls, frames)
        invariant Resume(ctx, impls, frames) == Resume(ctx, impls, frames0)
        decreases frames[top].i
      {
        ghost var before := frames;
        var f := frames[top];
        var i := f.i - 1;
        frames := SetTop(frames, i);
        TopMoved(ctx, impls, before, i);
        if i in f.closed {
          PrunedMoved(before, i);
          ResumeTop(ctx, impls, impls, before, i);
          continue;
        }
        var bp := f.closed + {i};
        var skip := PruningShouldSkip(before, i, bp, f.snapshot);
        PrunedMoved(before, i);
        if skip {
          CutStep(ctx, impls, bp, i);
          ResumeTop(ctx, impls, impls, before, i);
          continue;
        }
        if |bp| == 1 {
          SingletonChild(f.closed, i);
          SingletonInput(ctx, impls, countsTemplate, f, i);
          prev := countsTemplate;
        } else {
          ChildInput(ctx, impls, before[top], i);
          prev := f.count;
        }
        b, z, descended := bp, {i}, true;
        ResumeTop(ctx, impls, Step(ctx, impls, b, i), before, i);
        return;
      }
    }

    lemma PrunedMoved(frames: seq<Frame>, i: int)
      requires Valid() && FramesOk(ctx, frames) && frames != [] && Pruned(impls, frames)
      requires frames[|frames| - 1].y < i <= frames[|frames| - 1].i && FramesOk(ctx, SetTop(frames, i))
      ensures Pruned(impls, SetTop(frames, i))
    {
      hide LifoOk, LcmOk, IndexOk, DefaultOk, Context.Valid, FrameOk, Inside;
      if mode == Lifo {
        LifoGrows(ctx, impls, impls, frames, SetTop(frames, i), rules[..], pruningStack);
      } else if mode == Lcm {
        LcmGrows(ctx, impls, impls, frames, SetTop(frames, i), pruningData[..], pruningStackLcm);
      }
    }

    /** Enters the node (b, y), which is pushed on the stack if it turns out an intent with
        children to visit; otherwise its result is handed back. */
    method EnterNode(frames0: seq<Frame>, b: set<nat>, y: int, z: set<nat>, prev: seq<int>)
      returns (frames: seq<Frame>, resumeResult: int)
      requires Valid() && FramesOk(ctx, frames0) && DepthOk(frames0)
      requires Pruned(impls, frames0) && CountsOk(ctx, impls, frames0)
      requires EntryOk(ctx, impls, frames0, b, y, z, prev) && Ready(frames0)
      modifies `impls, `list, `countsTemplate, `hasDefaultConclusion, `defaultConclusion
      ensures Valid() && old(impls) <= impls && FramesOk(ctx, frames) && DepthOk(frames)
      ensures Pruned(impls, frames) && CountsOk(ctx, impls, frames)
      ensures Resume(ctx, Step(ctx, old(impls), b, y), frames0) == Resume(ctx, impls, frames)
      ensures resumeResult == NO_RESULT ==>
        && |frames0| < |ctx.cols| + 2
        && |frames| == |frames0| + 1 && frames0 <= frames
        && frames[|frames0|].y == y && frames[|frames0|].i == |ctx.cols|
      ensures resumeResult != NO_RESULT ==> frames == frames0 && Pending(frames)
      ensures resumeResult != NO_RESULT ==> ResultOk(frames, resumeResult)
    {
      hide LifoOk, LcmOk, Step, Children, ClosureInput, CountOk, Saturate, IndexOk, DefaultOk, ClosuresOf,
          Context.Valid, FramesOk, Within, Context.Closure;
      frames := frames0;
      ghost var before := impls;
      var entered, closed, count, result := Enter(b, y, z, prev);
      ListGrown(before, frames, y);
      if entered {
        var f := Frame(y, closed, count, |ctx.cols|, PruningSnapshot());
        FrameEntered(frames, b, f);
        frames := frames + [f];
        assert frames[..|frames0|] == frames0;
        resumeResult := NO_RESULT;
      } else {
        resumeResult := result;
      }
    }

    /** What a child may hand back to the top node. */
    ghost predicate ResultOk(frames: seq<Frame>, result: int)
      requires Within(impls, ctx.Attributes()) && FramesOk(ctx, frames)
      reads this
    {
      frames != [] && result != -1 ==>
        var f := frames[|frames| - 1];
        f.i >= 0 && Forces(ctx, impls, f.closed, f.i, result) && result !in f.closed
    }

    /** What the engine keeps between two rounds. */
    ghost predicate Running(st: Loop)
      reads this, rules, pruningData
    {
      && Valid() && FramesOk(ctx, st.frames) && DepthOk(st.frames)
      && Pruned(impls, st.frames) && CountsOk(ctx, impls, st.frames)
      && (st.entering ==> EntryOk(ctx, impls, st.frames, st.b, st.y, st.z, st.prev) && Ready(st.frames))
      && (!st.entering ==> Pending(st.frames))
    }

    /** The list that the engine will end with. */
    ghost function Outcome(st: Loop): seq<Implication>
      reads this, rules, pruningData
      requires Running(st)
    {
      if st.entering then Resume(ctx, Step(ctx, impls, st.b, st.y), st.frames) else Resume(ctx, impls, st.frames)
    }

    /** Applies the result of the last child to the top node, then goes on to its next
        child or, when there is none, drops the node. */
    method Advance(frames: seq<Frame>, resumeResult: int) returns (st: Loop)
      requires Valid() && FramesOk(ctx, frames) && DepthOk(frames) && frames != []
      requires Pruned(impls, frames) && CountsOk(ctx, impls, frames)
      requires resumeResult != NO_RESULT ==>
        Pending(frames) && ResultOk(frames, resumeResult) && frames[|frames| - 1].i >= 0
      modifies `pruningStack, `pruningStackLcm, rules, pruningData
      ensures Running(st) && Outcome(st) == old(Resume(ctx, impls, frames))
      ensures Left(|ctx.cols|, st) <= 2 * Work(|ctx.cols|, frames)
    {
      if resumeResult != NO_RESULT {
        var f := frames[|frames| - 1];
        PruningAfterChild(frames, f.i, resumeResult, f.snapshot);
      }
      st := Descend(frames);
    }

    /** Goes on to the next child of the top node or drops the node. */
    method Descend(frames: seq<Frame>) returns (st: Loop)
      requires Valid() && FramesOk(ctx, frames) && DepthOk(frames) && frames != []
      requires Pruned(impls, frames) && CountsOk(ctx, impls, frames)
      modifies `pruningStack, `pruningStackLcm, rules, pruningData
      ensures Running(st) && Outcome(st) == old(Resume(ctx, impls, frames))
      ensures Left(|ctx.cols|, st) <= 2 * Work(|ctx.cols|, frames)
    {
      hide LifoOk, LcmOk, LcmReady, Step, Children, ClosureInput, CountOk, FramesOk, Resume, Work, Within,
          Cost;
      TopOk(ctx, frames);
      var rest, descended, b, z, prev := NextChild(frames);
      WorkMoves(|ctx.cols|, frames, rest[|rest| - 1].i);
      DepthMoved(frames, rest[|rest| - 1].i);
      if descended {
        st := Loop(rest, true, b, rest[|rest| - 1].i, z, prev);
      } else {
        ResumePopped(ctx, impls, rest);
        assert rest[..|rest| - 1] == frames[..|frames| - 1];
        st := Drop(rest);
      }
    }

    method Drop(frames: seq<Frame>) returns (st: Loop)
      requires Valid() && FramesOk(ctx, frames) && DepthOk(frames) && frames != []
      requires Pruned(impls, frames) && CountsOk(ctx, impls, frames)
      modifies `pruningStack, `pruningStackLcm, rules, pruningData
      ensures Running(st) && st == Loop(frames[..|frames| - 1], false, {}, -1, {}, [])
    {
      DepthMoved(frames, 0);
      CountsPrefix(ctx, impls, frames);
      PruningUnwind(frames, frames[|frames| - 1].snapshot);
      st := Loop(frames[..|frames| - 1], false, {}, -1, {}, []);
    }

    /** One round of the engine: enter the next node, if there is one, then advance. */
    method Round(st: Loop) returns (done: bool, st': Loop)
      requires Running(st)
      modifies this, rules, pruningData
      ensures Running(st') && Outcome(st') == old(Outcome(st))
      ensures done ==> !st'.entering && st'.frames == []
      ensures !done ==> Left(|ctx.cols|, st') < Left(|ctx.cols|, st)
    {
      var frames, resumeResult := st.frames, -1;
      if st.entering {
        frames, resumeResult := EnterNode(frames, st.b, st.y, st.z, st.prev);
        EnteredWork(|ctx.cols|, st, frames);
      }
      if |frames| == 0 {
        return true, Loop([], false, {}, -1, {}, []);
      }
      TopOk(ctx, frames);
      done := false;
      st' := Advance(frames, resumeResult);
    }

    /** The whole search, from the empty set.  All three modes list what the recursive
        search lists, in the same order. */
    method Run()
      requires Valid() && impls == [] && Pruned(impls, [])
      modifies this, rules, pruningData
      ensures Valid() && impls == Search(ctx) && IsCanonicalBasis(ctx, impls) && InLecticOrder(impls, 0)
    {
      hide Context.Valid, IsCanonicalBasis, InLecticOrder, Left, LcmOk, Step;
      SearchIsCanonicalBasis(ctx);
      SearchIsInOrder(ctx);
      var st := Loop([], true, {}, -1, {}, []);
      var done := false;
      while !done
        invariant Running(st) && Outcome(st) == Search(ctx)
        invariant done ==> !st.entering && st.frames == []
        decreases !done, Left(|ctx.cols|, st)
      {
        done, st := Round(st);
      }
    }

    lemma ListGrown(before: seq<Implication>, frames: seq<Frame>, y: int)
      requires Valid() && Within(before, ctx.Attributes()) && before <= impls && FramesOk(ctx, frames)
      requires Pruned(before, frames) && CountsOk(ctx, before, frames)
      requires frames != [] ==> var f := frames[|frames| - 1];
        y == f.i && AgreeSince(impls, |before|, f.closed + {y}, y)
      ensures Pruned(impls, frames) && CountsOk(ctx, impls, frames)
    {
      if frames != [] {
        CountsStay(ctx, before, impls, frames);
      }
      if mode == Lifo {
        LifoGrows(ctx, before, impls, frames, frames, rules[..], pruningStack);
      } else if mode == Lcm {
        LcmGrows(ctx, before, impls, frames, frames, pruningData[..], pruningStackLcm);
      }
    }

    lemma FrameEntered(frames: seq<Frame>, b: set<nat>, f: Frame)
      requires Valid() && FramesOk(ctx, frames) && DepthOk(frames) && FrameOk(ctx, f)
      requires Pruned(impls, frames) && CountsOk(ctx, impls, frames) && Ready(frames)
      requires f.snapshot == PruningSnapshot() && f.i == |ctx.cols|
      requires f.closed == ctx.Attributes() || (|f.count| == |impls| && CountsFor(impls, f.count, f.closed))
      requires b <= f.closed && Agrees(f.closed, b, f.y)
      requires frames != [] ==> var g := frames[|frames| - 1]; f.y == g.i && b == g.closed + {f.y}
      ensures FramesOk(ctx, frames + [f]) && DepthOk(frames + [f]) && |frames| < |ctx.cols| + 1
      ensures Pruned(impls, frames + [f]) && CountsOk(ctx, impls, frames + [f])
    {
      var frames' := frames + [f];
      FramesExtended(ctx, frames, b, f);
      DepthExtended(ctx, frames, f);
      CountsExtended(ctx, impls, frames, f);
      if mode == Lifo {
        LifoGrows(ctx, impls, impls, frames, frames', rules[..], pruningStack);
      } else if mode == Lcm {
        LcmEntered(ctx, impls, frames, pruningData[..], pruningStackLcm, f);
      }
    }

    // ---- the recursive form ----

    /** The whole search by the recursive method: the same list. */
    method RunRecursive()
      requires Valid() && impls == []
      modifies `impls, `list, `countsTemplate, `hasDefaultConclusion, `defaultConclusion
      ensures Valid() && impls == Search(ctx) && IsCanonicalBasis(ctx, impls) && InLecticOrder(impls, 0)
    {
      hide IsCanonicalBasis, InLecticOrder, Step;
      SearchIsCanonicalBasis(ctx);
      SearchIsInOrder(ctx);
      StepRecursive({}, -1, {}, []);
    }

    /** The search written as one recursive method: it lists the same implications. */
    method StepRecursive(b: set<nat>, y: int, z: set<nat>, prev: seq<int>)
      requires Valid() && Node(ctx, impls, b, y) && ClosureInput(impls, b, z, prev)
      modifies `impls, `list, `countsTemplate, `hasDefaultConclusion, `defaultConclusion
      ensures Valid() && impls == Step(ctx, old(impls), b, y) && old(impls) <= impls
      ensures AgreeSince(impls, |old(impls)|, b, y)
      decreases |ctx.cols| - y, ctx.Attributes() - b, 1
    {
      hide Step, Children, Saturate, IndexOk, DefaultOk, ClosureInput, ClosuresOf, CountsFor, Context.Valid,
          Engine.Valid, AddsNothingBelow, Context.Closure, IndexRow;
      var ok, d, count, fail := LinClosureRC(b, y, z, prev);
      if !ok {
        assert CutAtOnce(ctx, impls, b, y);
        CutStep(ctx, impls, b, y);
        return;
      }
      var closure, extent := RealClosure(d);
      if d != closure {
        ghost var before := impls;
        AddImplication(d, closure, extent);
        var go := EqualsUntil(d, closure, y, |ctx.cols|);
        StepLists(ctx, before, b, y, d, closure, go);
        if go {
          SaturateIsLeast(before, ctx.Attributes(), b);
          ExtensionInput(ctx, before, impls, count, d, closure);
          StepRecursive(closure, y, closure - d, count);
        }
      } else {
        StepIntent(ctx, impls, b, b, y, d);
        ghost var before := impls;
        ChildrenRecursive(d, y, count);
        AgreeBelow(impls, |before|, d, b, y);
      }
    }

    method ChildrenRecursive(c: set<nat>, y: int, count: seq<int>)
      requires Valid() && Node(ctx, impls, c, y)
      requires FrameOk(ctx, Frame(y, c, count, |ctx.cols|, 0)) && CountOk(ctx, impls, Frame(y, c, count, |ctx.cols|, 0))
      modifies `impls, `list, `countsTemplate, `hasDefaultConclusion, `defaultConclusion
      ensures Valid() && impls == Children(ctx, old(impls), c, y, |ctx.cols|) && old(impls) <= impls
      ensures AgreeSince(impls, |old(impls)|, c, y + 1)
      decreases |ctx.cols| - y, ctx.Attributes() - c, 0
    {
      hide IndexOk, DefaultOk, Context.Valid, CountOk;
      var i := |ctx.cols|;
      while i > y + 1
        invariant y < i <= |ctx.cols|
        invariant Valid() && old(impls) <= impls && AgreeSince(impls, |old(impls)|, c, y + 1)
        invariant CountOk(ctx, impls, Frame(y, c, count, i, 0)) && FrameOk(ctx, Frame(y, c, count, i, 0))
        invariant Children(ctx, old(impls), c, y, |ctx.cols|) == Children(ctx, impls, c, y, i)
      {
        i := i - 1;
        ghost var before := impls;
        ghost var f := Frame(y, c, count, i + 1, 0);
        if i !in c {
          var child: nat := i;
          ChildInput(ctx, impls, f, i);
          StepRecursive(c + {child}, child, {child}, count);
        }
        ChildrenMove(ctx, before, impls, f, i);
        ChildListed(ctx, before, impls, f, i);
      }
    }
  }

  function SetTop(frames: seq<Frame>, i: int): seq<Frame>
    requires frames != []
  {
    frames[|frames| - 1 := frames[|frames| - 1].(i := i)]
  }

  lemma TopMoved(ctx: Context, impls: seq<Implication>, frames: seq<Frame>, i: int)
    requires FramesOk(ctx, frames) && CountsOk(ctx, impls, frames) && frames != []
    requires frames[|frames| - 1].y < i <= frames[|frames| - 1].i
    ensures FramesOk(ctx, SetTop(frames, i)) && CountsOk(ctx, impls, SetTop(frames, i))
  {
    var frames' := SetTop(frames, i);
    forall k | 0 <= k < |frames'| ensures FrameOk(ctx, frames'[k]) && CountOk(ctx, impls, frames'[k]) {
      assert FrameOk(ctx, frames[k]) && CountOk(ctx, impls, frames[k]);
    }
    forall j, k | 0 <= j < k < |frames'| ensures Inside(frames'[j], frames'[k]) {
      assert Inside(frames[j], frames[k]);
    }
  }

  /** Moving past child i of the top node accounts for its call. */
  lemma ResumeTop(ctx: Context, l: seq<Implication>, l': seq<Implication>, frames: seq<Frame>, i: int)
    requires ctx.Valid() && Within(l, ctx.Attributes()) && FramesOk(ctx, frames) && frames != []
    requires frames[|frames| - 1].y < i == frames[|frames| - 1].i - 1
    requires FramesOk(ctx, SetTop(frames, i)) && FrameOk(ctx, frames[|frames| - 1])
    requires var f := frames[|frames| - 1];
      l' == if i in f.closed then l else Step(ctx, l, f.closed + {i}, i)
    ensures Within(l', ctx.Attributes()) && Resume(ctx, l', SetTop(frames, i)) == Resume(ctx, l, frames)
  {
    var frames' := SetTop(frames, i);
    var f := frames[|frames| - 1];
    assert FrameOk(ctx, frames'[|frames| - 1]);
    assert frames'[..|frames| - 1] == frames[..|frames| - 1];
    ChildrenMove(ctx, l, l', f, i);
  }

  lemma ResumePopped(ctx: Context, l: seq<Implication>, frames: seq<Frame>)
    requires ctx.Valid() && Within(l, ctx.Attributes()) && FramesOk(ctx, frames) && frames != []
    requires frames[|frames| - 1].i == frames[|frames| - 1].y + 1
    ensures Resume(ctx, l, frames) == Resume(ctx, l, frames[..|frames| - 1])
  {
    assert FrameOk(ctx, frames[|frames| - 1]);
  }

  lemma ChildrenMove(ctx: Context, l: seq<Implication>, l': seq<Implication>, f: Frame, i: int)
    requires ctx.Valid() && Within(l, ctx.Attributes()) && FrameOk(ctx, f) && f.y < i == f.i - 1
    requires l' == if i in f.closed then l else Step(ctx, l, f.closed + {i}, i)
    ensures Within(l', ctx.Attributes())
    ensures Children(ctx, l, f.closed, f.y, f.i) == Children(ctx, l', f.closed, f.y, i)
  {}

  lemma SingletonChild(c: set<nat>, i: nat)
    requires i !in c && |c + {i}| == 1
    ensures c == {}
  {
    assert |c + {i}| == |c| + 1;
  }

  lemma TopOk(ctx: Context, frames: seq<Frame>)
    requires FramesOk(ctx, frames) && frames != []
    ensures FrameOk(ctx, frames[|frames| - 1])
  {}

  lemma DepthMoved(frames: seq<Frame>, i: int)
    requires DepthOk(frames) && frames != []
    ensures DepthOk(SetTop(frames, i)) && DepthOk(frames[..|frames| - 1])
  {}

  lemma CountsPrefix(ctx: Context, impls: seq<Implication>, frames: seq<Frame>)
    requires CountsOk(ctx, impls, frames) && frames != []
    ensures CountsOk(ctx, impls, frames[..|frames| - 1])
  {}

  lemma CountsExtended(ctx: Context, impls: seq<Implication>, frames: seq<Frame>, f: Frame)
    requires CountsOk(ctx, impls, frames)
    requires f.closed == ctx.Attributes() || (|f.count| == |impls| && CountsFor(impls, f.count, f.closed))
    ensures CountsOk(ctx, impls, frames + [f])
  {}

  /** The height of the stack stays within the n + 2 nodes allotted to it. */
  lemma DepthExtended(ctx: Context, frames: seq<Frame>, f: Frame)
    requires FramesOk(ctx, frames) && DepthOk(frames) && FrameOk(ctx, f)
    requires if frames == [] then f.y >= -1 else f.y == frames[|frames| - 1].i
    ensures DepthOk(frames + [f]) && |frames + [f]| <= |ctx.cols| + 1
  {
    if frames != [] { TopOk(ctx, frames); }
  }

  lemma FramesExtended(ctx: Context, frames: seq<Frame>, b: set<nat>, f: Frame)
    requires FramesOk(ctx, frames) && FrameOk(ctx, f) && b <= f.closed && Agrees(f.closed, b, f.y)
    requires frames != [] ==> var g := frames[|frames| - 1]; f.y == g.i && b == g.closed + {f.y}
    ensures FramesOk(ctx, frames + [f])
  {
    var frames' := frames + [f];
    forall j, k | 0 <= j < k < |frames'| ensures Inside(frames'[j], frames'[k]) {
      if k == |frames| {
        var g := frames[|frames| - 1];
        assert FrameOk(ctx, g);
        assert Inside(g, f);
        if j < |frames| - 1 { assert Inside(frames[j], g); }
      } else {
        assert Inside(frames[j], frames[k]);
      }
    }
  }

  /** The attributes of the nodes increase along the stack, which bounds its height. */
  ghost predicate DepthOk(frames: seq<Frame>) {
    forall k | 0 <= k < |frames| :: k - 1 <= frames[k].y
  }

  /** The next call of Enter: the root, or the current child of the top node. */
  ghost predicate EntryOk(ctx: Context, impls: seq<Implication>, frames: seq<Frame>, b: set<nat>, y: int,
                          z: set<nat>, prev: seq<int>) {
    && Node(ctx, impls, b, y) && ClosureInput(impls, b, z, prev)
    && (frames == [] ==> b == {} && y == -1)
    && (frames != [] ==> var f := frames[|frames| - 1]; f.i == y && y !in f.closed && b == f.closed + {y})
  }

  // ---- termination ----

  /** A bound on the rounds of the engine spent on the children lo, ..., hi-1 of a node. */
  ghost function Cost(n: nat, lo: int, hi: int): nat
    decreases n - lo, hi - lo
  {
    if hi <= lo || hi > n then 0 else Cost(n, lo, hi - 1) + 2 + Cost(n, hi, n)
  }

  ghost function Work(n: nat, frames: seq<Frame>): nat
  {
    if frames == [] then 0
    else var f := frames[|frames| - 1]; Work(n, frames[..|frames| - 1]) + 1 + Cost(n, f.y + 1, f.i)
  }

  /** Decreases with every round. */
  ghost function Left(n: nat, st: Loop): nat
  {
    2 * (Work(n, st.frames) + (if st.entering then 2 + Cost(n, st.y + 1, n) else 0)) + (if st.entering then 0 else 1)
  }

  lemma EnteredWork(n: nat, st: Loop, frames: seq<Frame>)
    requires st.entering
    requires frames == st.frames || (
      |frames| == |st.frames| + 1 && st.frames <= frames &&
      frames[|st.frames|].y == st.y && frames[|st.frames|].i == n)
    ensures 2 * Work(n, frames) + 1 < Left(n, st)
  {
    if frames != st.frames {
      assert frames[..|st.frames|] == st.frames;
    }
  }

  lemma {:induction false} CostMonotone(n: nat, lo: int, mid: int, hi: int)
    requires lo <= mid <= hi <= n
    ensures Cost(n, lo, mid) <= Cost(n, lo, hi)
    decreases hi - mid
  {
    if mid < hi { CostMonotone(n, lo, mid, hi - 1); }
  }

  lemma WorkMoves(n: nat, frames: seq<Frame>, i: int)
    requires frames != [] && frames[|frames| - 1].y < i <= frames[|frames| - 1].i <= n
    ensures Work(n, SetTop(frames, i)) <= Work(n, frames)
    ensures i < frames[|frames| - 1].i ==> Work(n, SetTop(frames, i)) + 2 + Cost(n, i + 1, n) <= Work(n, frames)
    ensures Work(n, frames[..|frames| - 1]) < Work(n, frames)
  {
    var f := frames[|frames| - 1];
    assert SetTop(frames, i)[..|frames| - 1] == frames[..|frames| - 1];
    CostMonotone(n, f.y + 1, i, f.i);
    if i < f.i {
      CostMonotone(n, f.y + 1, i + 1, f.i);
    }
  }

  /** The implications listed since `start` agree with b below y. */
  ghost predicate AgreeSince(impls: seq<Implication>, start: nat, b: set<nat>, y: int) {
    forall k | start <= k < |impls| :: Agrees(impls[k].premise, b, y)
  }

  ghost predicate IndexOk(impls: seq<Implication>, list: seq<seq<nat>>, n: nat) {
    |list| == n && forall a | 0 <= a < |list| :: IndexRow(impls, list[a], a)
  }

  ghost predicate DefaultOk(impls: seq<Implication>, default: set<nat>) {
    forall a | a in default :: exists k :: 0 <= k < |impls| && impls[k].premise == {} && a in impls[k].closure
  }

  lemma DefaultInside(impls: seq<Implication>, default: set<nat>, have: set<nat>, b: set<nat>)
    requires DefaultOk(impls, default) && Settled(impls, have, b)
    ensures default <= b
  {}

  lemma NoDefault(impls: seq<Implication>)
    ensures DefaultOk(impls, {})
  {}

  lemma AppendImplication(ctx: Context, impls: seq<Implication>, imp: Implication, template: seq<int>)
    requires Within(impls, ctx.Attributes()) && ClosuresOf(ctx, impls)
    requires imp.premise <= ctx.Attributes() && imp.closure <= ctx.Attributes()
      && imp.closure == ctx.Closure(imp.premise)
    requires |template| == |impls| && CountsFor(impls, template, {})
    ensures Within(impls + [imp], ctx.Attributes()) && ClosuresOf(ctx, impls + [imp])
    ensures CountsFor(impls + [imp], template + [|imp.premise|], {})
  {
    var impls' := impls + [imp];
    assert imp.premise - {} == imp.premise;
    assert impls'[|impls|] == imp;
  }

  lemma DefaultGrows(impls: seq<Implication>, imp: Implication, default: set<nat>)
    requires DefaultOk(impls, default)
    ensures DefaultOk(impls + [imp], default)
    ensures imp.premise == {} ==> DefaultOk(impls + [imp], default + imp.closure)
  {
    var impls' := impls + [imp];
    assert impls'[|impls|] == imp;
    forall a | a in default
      ensures exists k :: 0 <= k < |impls'| && impls'[k].premise == {} && a in impls'[k].closure
    {
      var k :| 0 <= k < |impls| && impls[k].premise == {} && a in impls[k].closure;
      assert impls'[k] == impls[k];
    }
  }

  /** An attribute forced by b is forced by b0, from which b was reached. */
  lemma BlockedResult(ctx: Context, impls: seq<Implication>, b0: set<nat>, b: set<nat>, y: int, fail: int)
    requires Node(ctx, impls, b, y) && b0 <= b && Forced(impls, b0, b)
    requires 0 <= fail < y && fail in Saturate(impls, ctx.Attributes(), b) && fail !in b
    ensures fail in Saturate(impls, ctx.Attributes(), b0) && Step(ctx, impls, b, y) == impls
  {
    var d := Saturate(impls, ctx.Attributes(), b0);
    SaturateIsLeast(impls, ctx.Attributes(), b0);
    SaturateIsLeast(impls, ctx.Attributes(), b);
    assert b <= d;
    assert Saturate(impls, ctx.Attributes(), b) <= d;
    assert !AddsNothingBelow(Saturate(impls, ctx.Attributes(), b), b, y);
  }

  /** The part of a call that lists d, and whether it goes on from the closure of d. */
  lemma StepExtends(ctx: Context, l: seq<Implication>, b: set<nat>, y: int, d: set<nat>, c: set<nat>,
                    zp: set<nat>, minZp: int)
    requires Node(ctx, l, b, y)
    requires d == Saturate(l, ctx.Attributes(), b) && AddsNothingBelow(d, b, y)
    requires c == ctx.Closure(d) != d && d <= c <= ctx.Attributes() && zp == c - d
    requires if zp == {} then minZp == INT_MAX else minZp in zp && forall a | a in zp :: minZp <= a
    ensures minZp != INT_MAX && ctx.Attributes() - c < ctx.Attributes() - b
    ensures var l' := l + [Implication(d, c, ctx.Extent(d))];
      && Within(l', ctx.Attributes())
      && Step(ctx, l, b, y) == (if minZp > y then Step(ctx, l', c, y) else l')
      && (minZp > y ==> Agrees(c, b, y))
  {
    StrictlyFewer(ctx.Attributes(), b, d, c);
    var a0 :| a0 in c && a0 !in d;
    assert a0 in zp;
    assert minZp in c;
    if minZp > y {
      forall a: nat | a < y + 1 ensures a in d <==> a in c {
        assert a !in zp;
      }
      assert Agrees(d, c, y + 1);
    } else {
      assert minZp in c && minZp !in d;
      assert !Agrees(d, c, y + 1);
    }
  }

  lemma StepLists(ctx: Context, l: seq<Implication>, b: set<nat>, y: int, d: set<nat>, c: set<nat>, go: bool)
    requires Node(ctx, l, b, y)
    requires d == Saturate(l, ctx.Attributes(), b) && AddsNothingBelow(d, b, y)
    requires c == ctx.Closure(d) != d && b <= d <= c <= ctx.Attributes() && go == Agrees(d, c, y + 1)
    ensures ctx.Attributes() - c < ctx.Attributes() - b
    ensures go ==> Agrees(c, b, y)
    ensures var l' := l + [Implication(d, c, ctx.Extent(d))];
      Within(l', ctx.Attributes()) && Step(ctx, l, b, y) == (if go then Step(ctx, l', c, y) else l')
  {
    StrictlyFewer(ctx.Attributes(), b, d, c);
  }

  /** The loop over the children after child i. */
  lemma ChildListed(ctx: Context, l: seq<Implication>, l': seq<Implication>, f: Frame, i: int)
    requires FrameOk(ctx, f) && f.y < i == f.i - 1 && l <= l'
    requires CountOk(ctx, l, f) && AgreeSince(l', |l|, f.closed + {i}, i)
    ensures CountOk(ctx, l', f.(i := i)) && FrameOk(ctx, f.(i := i))
    ensures AgreeSince(l', |l|, f.closed, f.y + 1)
  {
    assert forall k | 0 <= k < |l| :: l'[k] == l[k];
    forall k | |l| <= k < |l'| ensures Agrees(l'[k].premise, f.closed, i) {
      assert Agrees(l'[k].premise, f.closed + {i}, i);
    }
  }

  lemma AgreeBelow(l: seq<Implication>, start: nat, c: set<nat>, b: set<nat>, y: int)
    requires AgreeSince(l, start, c, y + 1) && Agrees(c, b, y)
    ensures AgreeSince(l, start, b, y)
  {
    forall k | start <= k < |l| ensures Agrees(l[k].premise, b, y) {
      assert Agrees(l[k].premise, c, y + 1);
    }
  }

  /** Two sets, walked in step in increasing order, agree up to and including y. */
  method EqualsUntil(s: set<nat>, t: set<nat>, y: int, n: nat) returns (r: bool)
    requires (forall x | x in s :: x < n) && (forall x | x in t :: x < n)
    ensures r <==> Agrees(s, t, y + 1)
  {
    var es := Derivation.Elements(s, n);
    var et := Derivation.Elements(t, n);
    var k := 0;
    while true
      invariant k <= |es| && k <= |et| && es[..k] == et[..k]
      decreases |es| - k
    {
      if k == |es| || k == |et| || es[k] != et[k] {
        FirstDifference(s, t, es, et, k, y);
      }
      if k == |es| {
        return k == |et| || et[k] > y;
      }
      if k == |et| {
        return es[k] > y;
      }
      if es[k] != et[k] {
        return es[k] > y && et[k] > y;
      }
      k := k + 1;
    }
  }

  /** After k equal elements, the sets agree below their next elements. */
  lemma PrefixAgrees(s: set<nat>, t: set<nat>, es: seq<nat>, et: seq<nat>, k: nat, x: nat)
    requires Derivation.Sorted(s, es) && Derivation.Sorted(t, et)
    requires k <= |es| && k <= |et| && es[..k] == et[..k]
    requires (k < |es| ==> x < es[k]) && (k < |et| ==> x < et[k])
    ensures x in s <==> x in t
  {
    assert x in es <==> x in es[..k];
    assert x in et <==> x in et[..k];
  }

  /** ... and at the first place where they differ, the smaller element decides. */
  lemma FirstDifference(s: set<nat>, t: set<nat>, es: seq<nat>, et: seq<nat>, k: nat, y: int)
    requires Derivation.Sorted(s, es) && Derivation.Sorted(t, et)
    requires k <= |es| && k <= |et| && es[..k] == et[..k]
    requires k == |es| || k == |et| || es[k] != et[k]
    ensures Agrees(s, t, y + 1) <==> (k < |es| ==> es[k] > y) && (k < |et| ==> et[k] > y)
  {
    if (k < |es| ==> es[k] > y) && (k < |et| ==> et[k] > y) {
      forall x: nat | x < y + 1 ensures x in s <==> x in t {
        PrefixAgrees(s, t, es, et, k, x);
      }
    } else if k < |es| && es[k] <= y && (k < |et| ==> es[k] < et[k]) {
      assert es[k] in es && es[k] !in et;
      assert es[k] in s && es[k] !in t;
    } else {
      assert et[k] in et && et[k] !in es;
      assert et[k] in t && et[k] !in s;
    }
  }

  /** An intent is left to the loop over its children. */
  lemma StepIntent(ctx: Context, l: seq<Implication>, b0: set<nat>, b: set<nat>, y: int, d: set<nat>)
    requires Node(ctx, l, b, y) && ctx.Closure(d) == d
    requires d == Saturate(l, ctx.Attributes(), b) && AddsNothingBelow(d, b, y)
    requires b0 <= b && Agrees(b, b0, y)
    ensures b <= d <= ctx.Attributes() && Agrees(d, b0, y)
    ensures Step(ctx, l, b, y) == Children(ctx, l, d, y, |ctx.cols|)
  {
    SaturateIsLeast(l, ctx.Attributes(), b);
  }

  lemma ListedExtension(ctx: Context, impls: seq<Implication>, impls': seq<Implication>, start: nat,
                        b0: set<nat>, b: set<nat>, y: int, d: set<nat>)
    requires Within(impls, ctx.Attributes()) && b <= ctx.Attributes()
    requires |impls'| == |impls| + 1 && impls <= impls' && impls'[|impls|].premise == d
    requires d == Saturate(impls, ctx.Attributes(), b) && AddsNothingBelow(d, b, y)
    requires b0 <= b && Agrees(b, b0, y) && Forced(impls, b0, b) && AgreeSince(impls, start, b0, y)
    ensures AgreeSince(impls', start, b0, y) && Forced(impls', b0, impls'[|impls|].closure)
    ensures Respects(impls, d)
  {
    SaturateIsLeast(impls, ctx.Attributes(), b);
    assert Forced(impls, b, d);
    ForcedExtension(impls, impls', b0, b, d);
    hide Saturate, Forced, Respects, IsLeast;
    assert Agrees(d, b0, y);
    forall k | start <= k < |impls'| ensures Agrees(impls'[k].premise, b0, y) {
      if k < |impls| { assert impls'[k] == impls[k]; }
    }
  }

  lemma IndexRowGrows(impls: seq<Implication>, impls': seq<Implication>, row: seq<nat>, a: nat)
    requires |impls'| == |impls| + 1 && impls <= impls' && IndexRow(impls, row, a)
    ensures IndexRow(impls', if a in impls'[|impls|].premise then row + [|impls|] else row, a)
  {
    assert forall k | 0 <= k < |impls| :: impls'[k] == impls[k];
    var row' := row + [|impls|];
    assert forall p | 0 <= p < |row| :: row[p] in row;
    assert row'[|row|] == |impls|;
    forall k: nat ensures k in row' <==> k in row || k == |impls| {}
  }

  /** What b0 forces, it forces through d up to the closure of d. */
  lemma ForcedExtension(impls: seq<Implication>, impls': seq<Implication>, b0: set<nat>, b: set<nat>, d: set<nat>)
    requires |impls'| == |impls| + 1 && impls <= impls' && impls'[|impls|].premise == d
    requires Forced(impls, b0, b) && Forced(impls, b, d)
    ensures Forced(impls', b0, impls'[|impls|].closure)
  {
    forall x: set<nat> | b0 <= x && Respects(impls', x) ensures impls'[|impls|].closure <= x {
      assert forall k | 0 <= k < |impls| :: impls'[k] == impls[k];
      assert Respects(impls, x);
      assert b <= x && d <= x;
    }
  }
}
