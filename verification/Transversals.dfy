/** Minimal generators of an attribute as minimal transversals of a hypergraph: a
    backtracking search with hit counters and an explicit stack. */
module Transversals {
  import opened FiniteSets
  import opened FormalContext
  import Derivation

  type Edge = seq<nat>

  ghost predicate Hits(t: set<nat>, edge: Edge) {
    exists a :: a in edge && a in t
  }

  ghost predicate IsTransversal(edges: seq<Edge>, t: set<nat>) {
    forall k | 0 <= k < |edges| :: Hits(t, edges[k])
  }

  /** a is the only element of t in edge k. */
  ghost predicate Private(edges: seq<Edge>, t: set<nat>, a: nat, k: nat)
    requires k < |edges|
  {
    a in edges[k] && a in t && forall b | b in edges[k] && b in t :: b == a
  }

  ghost predicate HasOwnEdge(edges: seq<Edge>, t: set<nat>, a: nat) {
    exists k: nat :: k < |edges| && Private(edges, t, a, k)
  }

  /** Every element of t is needed: it has an edge of its own. */
  ghost predicate Irredundant(edges: seq<Edge>, t: set<nat>) {
    forall a | a in t :: HasOwnEdge(edges, t, a)
  }

  ghost predicate IsMinimalTransversal(edges: seq<Edge>, t: set<nat>) {
    IsTransversal(edges, t) && forall s: set<nat> | s < t :: !IsTransversal(edges, s)
  }

  /** A transversal is minimal exactly when none of its elements is redundant. */
  lemma MinimalIsIrredundant(edges: seq<Edge>, t: set<nat>)
    requires IsTransversal(edges, t)
    ensures IsMinimalTransversal(edges, t) <==> Irredundant(edges, t)
  {
    if IsMinimalTransversal(edges, t) {
      forall a | a in t ensures HasOwnEdge(edges, t, a) {
        var s := t - {a};
        assert s < t;
        var k :| 0 <= k < |edges| && !Hits(s, edges[k]);
        assert Hits(t, edges[k]);
        assert Private(edges, t, a, k);
      }
    }
    if Irredundant(edges, t) {
      forall s: set<nat> | s < t ensures !IsTransversal(edges, s) {
        var a :| a in t && a !in s;
        var k: nat :| k < |edges| && Private(edges, t, a, k);
        assert !Hits(s, edges[k]);
      }
    }
  }

  /** Subsets of an irredundant set are irredundant. */
  lemma IrredundantSubset(edges: seq<Edge>, s: set<nat>, t: set<nat>)
    requires s <= t && Irredundant(edges, t)
    ensures Irredundant(edges, s)
  {
    forall a | a in s ensures HasOwnEdge(edges, s, a) {
      var k: nat :| k < |edges| && Private(edges, t, a, k);
      assert Private(edges, s, a, k);
    }
  }

  /** A transversal that contains an irredundant one equal in reach is that one: an
      irredundant superset of a transversal adds nothing. */
  lemma TransversalAbsorbs(edges: seq<Edge>, s: set<nat>, t: set<nat>)
    requires s <= t && IsTransversal(edges, s) && Irredundant(edges, t)
    ensures s == t
  {
    forall a | a in t ensures a in s {
      var k: nat :| k < |edges| && Private(edges, t, a, k);
      assert Hits(s, edges[k]);
      var b :| b in edges[k] && b in s;
      assert b == a;
    }
  }

  /** How often t hits the edge. */
  ghost function Hit(edges: seq<Edge>, t: set<nat>, k: nat): nat
    requires k < |edges|
  {
    |t * ToSet(edges[k])|
  }

  lemma HitIsZero(edges: seq<Edge>, t: set<nat>, k: nat)
    requires k < |edges|
    ensures Hit(edges, t, k) == 0 <==> !Hits(t, edges[k])
  {
    var s := t * ToSet(edges[k]);
    if Hits(t, edges[k]) {
      var a :| a in edges[k] && a in t;
      assert a in s;
    } else {
      assert s == {};
    }
  }

  lemma HitIsOne(edges: seq<Edge>, t: set<nat>, a: nat, k: nat)
    requires k < |edges| && a in t && a in edges[k]
    ensures Hit(edges, t, k) <= 1 <==> Private(edges, t, a, k)
  {
    var s := t * ToSet(edges[k]);
    assert a in s;
    if Private(edges, t, a, k) {
      assert s == {a};
    } else {
      var b :| b in edges[k] && b in t && b != a;
      SubsetCard({a, b}, s);
    }
  }

  lemma HitStep(edges: seq<Edge>, t: set<nat>, a: nat, k: nat)
    requires k < |edges| && a !in t
    ensures Hit(edges, t + {a}, k) == Hit(edges, t, k) + (if a in edges[k] then 1 else 0)
  {
    if a in edges[k] {
      assert (t + {a}) * ToSet(edges[k]) == t * ToSet(edges[k]) + {a};
    } else {
      assert (t + {a}) * ToSet(edges[k]) == t * ToSet(edges[k]);
    }
  }

  // ---- the search ----

  /** A position of the search: the next edge to look at, the next attribute of that edge
      to try (-1 before the edge is chosen), and the attribute chosen last (-1 for none). */
  datatype GenFrame = GenFrame(index: nat, ai: int, attr: int)

  /** The attributes chosen by the frames, bottom first. */
  ghost function Chosen(frames: seq<GenFrame>): (s: seq<nat>)
  {
    if frames == [] then []
    else
      var f := frames[|frames| - 1];
      Chosen(frames[..|frames| - 1]) + (if f.attr >= 0 then [f.attr as nat] else [])
  }

  /** t is still to be found from frame f, below the choices `cur` of the frames under it. */
  ghost predicate Ahead(edges: seq<Edge>, f: GenFrame, cur: set<nat>, t: set<nat>) {
    && cur <= t
    && (f.ai >= 0 ==> f.index < |edges| && exists p :: f.ai <= p < |edges[f.index]| && edges[f.index][p] in t)
  }

  /** The edges before the position are hit; once the edge at the position is chosen, it is
      not. */
  ghost predicate FrameOk(edges: seq<Edge>, f: GenFrame, cur: set<nat>) {
    && f.index <= |edges|
    && (forall k | 0 <= k < f.index :: Hits(cur, edges[k]))
    && (if f.ai < 0 then f.attr < 0
        else f.index < |edges| && f.ai <= |edges[f.index]| && !Hits(cur, edges[f.index]))
    && (f.attr >= 0 ==> f.attr in edges[f.index] && f.attr !in cur)
  }

  /** All frames are in order; only the top one may be without a chosen attribute.  The
      positions increase, which bounds the height of the stack. */
  ghost predicate StackOk(edges: seq<Edge>, frames: seq<GenFrame>) {
    frames == [] ||
      var base, f := frames[..|frames| - 1], frames[|frames| - 1];
      && StackOk(edges, base) && (base != [] ==> base[|base| - 1].attr >= 0)
      && FrameOk(edges, f, ToSet(Chosen(base))) && |base| <= f.index
  }

  /** Each of the attributes lo, ..., hi-1 of the edge makes the choice redundant. */
  ghost predicate Useless(edges: seq<Edge>, cur: set<nat>, edge: Edge, lo: int, hi: int)
    requires 0 <= lo && hi <= |edge|
  {
    forall p | lo <= p < hi :: !Irredundant(edges, cur + {edge[p]})
  }

  ghost predicate Found(results: seq<seq<nat>>, t: set<nat>) {
    exists i :: 0 <= i < |results| && Derivation.Sorted(t, results[i])
  }

  ghost predicate OnlyMinimal(edges: seq<Edge>, results: seq<seq<nat>>) {
    forall i | 0 <= i < |results| ::
      IsMinimalTransversal(edges, ToSet(results[i])) && Derivation.Sorted(ToSet(results[i]), results[i])
  }

  /** Every minimal transversal is found or still ahead of some frame. */
  ghost predicate AllAhead(edges: seq<Edge>, frames: seq<GenFrame>, results: seq<seq<nat>>) {
    forall t: set<nat> | IsMinimalTransversal(edges, t) :: Found(results, t) || AheadOfSome(edges, frames, t)
  }

  ghost predicate AheadOfSome(edges: seq<Edge>, frames: seq<GenFrame>, t: set<nat>) {
    frames != [] &&
      var base, f := frames[..|frames| - 1], frames[|frames| - 1];
      AheadOfSome(edges, base, t) || Ahead(edges, f, ToSet(Chosen(base)), t)
  }

  lemma FirstFrame(edges: seq<Edge>)
    ensures StackOk(edges, [GenFrame(0, -1, -1)]) && Chosen([GenFrame(0, -1, -1)]) == []
    ensures AllAhead(edges, [GenFrame(0, -1, -1)], [])
  {
    var frames := [GenFrame(0, -1, -1)];
    assert frames == [] + [frames[0]];
    ChosenPush([], frames[0]);
    StackPush(edges, [], frames[0]);
    forall t: set<nat> ensures AheadOfSome(edges, frames, t) {
      AheadOfPush(edges, [], frames[0], t);
    }
  }

  lemma FoundIsMinimal(edges: seq<Edge>, results: seq<seq<nat>>, t: set<nat>)
    requires OnlyMinimal(edges, results) && AllAhead(edges, [], results)
    ensures Found(results, t) <==> IsMinimalTransversal(edges, t)
  {
    hide IsMinimalTransversal;
    if Found(results, t) {
      var i :| 0 <= i < |results| && Derivation.Sorted(t, results[i]);
      assert t == ToSet(results[i]);
    }
  }

  // ---- one turn ----

  lemma AheadOfPush(edges: seq<Edge>, base: seq<GenFrame>, f: GenFrame, t: set<nat>)
    ensures AheadOfSome(edges, base + [f], t) <==>
      AheadOfSome(edges, base, t) || Ahead(edges, f, ToSet(Chosen(base)), t)
  {
    assert (base + [f])[..|base|] == base;
  }

  lemma FoundStays(results: seq<seq<nat>>, results': seq<seq<nat>>, t: set<nat>)
    requires results <= results'
    ensures Found(results, t) ==> Found(results', t)
  {
    if Found(results, t) {
      var i :| 0 <= i < |results| && Derivation.Sorted(t, results[i]);
      assert Derivation.Sorted(t, results'[i]);
    }
  }

  /** Giving up the top frame is right when nothing unfound is ahead of it. */
  lemma Popped(edges: seq<Edge>, base: seq<GenFrame>, f: GenFrame, results: seq<seq<nat>>, results': seq<seq<nat>>)
    requires AllAhead(edges, base + [f], results) && results <= results'
    requires forall t: set<nat> | IsMinimalTransversal(edges, t) && Ahead(edges, f, ToSet(Chosen(base)), t) ::
      Found(results', t)
    ensures AllAhead(edges, base, results')
  {
    forall t: set<nat> | IsMinimalTransversal(edges, t) && !Found(results', t) ensures AheadOfSome(edges, base, t) {
      FoundStays(results, results', t);
      AheadOfPush(edges, base, f, t);
    }
  }

  /** A choice that hits every edge is the only minimal transversal around it. */
  lemma Reported(edges: seq<Edge>, f: GenFrame, cur: set<nat>, results: seq<seq<nat>>, arr: seq<nat>)
    requires Irredundant(edges, cur) && IsTransversal(edges, cur) && Derivation.Sorted(cur, arr)
    requires OnlyMinimal(edges, results)
    ensures OnlyMinimal(edges, results + [arr])
    ensures forall t: set<nat> | IsMinimalTransversal(edges, t) && cur <= t :: Found(results + [arr], t)
  {
    assert ToSet(arr) == cur;
    MinimalIsIrredundant(edges, cur);
    forall t: set<nat> | IsMinimalTransversal(edges, t) && cur <= t ensures Found(results + [arr], t) {
      MinimalIsIrredundant(edges, t);
      TransversalAbsorbs(edges, cur, t);
      assert (results + [arr])[|results|] == arr;
    }
  }

  /** What is ahead of a frame whose next edge is chosen is ahead of one of its
      attributes. */
  lemma AheadOfEdge(edges: seq<Edge>, f: GenFrame, cur: set<nat>, index: nat, lo: nat, hi: nat, t: set<nat>)
    requires IsMinimalTransversal(edges, t) && Ahead(edges, f, cur, t)
    requires index < |edges| && (if f.ai < 0 then lo == 0 else f.index == index && f.ai == lo)
    requires lo <= hi <= |edges[index]| && Useless(edges, cur, edges[index], lo, hi)
    ensures cur <= t && exists p :: hi <= p < |edges[index]| && edges[index][p] in t
  {
    var edge := edges[index];
    if f.ai < 0 {
      assert Hits(t, edge);
      var a :| a in edge && a in t;
      var q :| 0 <= q < |edge| && edge[q] == a;
    }
    var p :| lo <= p < |edge| && edge[p] in t;
    if p < hi {
      MinimalIsIrredundant(edges, t);
      IrredundantSubset(edges, cur + {edge[p]}, t);
      assert false;
    }
  }

  lemma ChosenPush(base: seq<GenFrame>, f: GenFrame)
    ensures Chosen(base + [f]) == Chosen(base) + (if f.attr >= 0 then [f.attr as nat] else [])
  {
    assert (base + [f])[..|base|] == base;
  }

  lemma StackPush(edges: seq<Edge>, base: seq<GenFrame>, f: GenFrame)
    ensures StackOk(edges, base + [f]) <==>
      && StackOk(edges, base) && (base != [] ==> base[|base| - 1].attr >= 0)
      && FrameOk(edges, f, ToSet(Chosen(base))) && |base| <= f.index
  {
    assert (base + [f])[..|base|] == base;
  }

  /** The stack after choosing the attribute f'.attr. */
  lemma PushedStack(edges: seq<Edge>, base: seq<GenFrame>, f': GenFrame, fresh': GenFrame)
    requires StackOk(edges, base) && (base != [] ==> base[|base| - 1].attr >= 0) && |base| <= f'.index
    requires FrameOk(edges, f', ToSet(Chosen(base))) && f'.attr >= 0
    requires fresh' == GenFrame(f'.index + 1, -1, -1)
    ensures StackOk(edges, base + [f', fresh']) && |base + [f', fresh']| <= |edges| + 1
    ensures Chosen(base + [f', fresh']) == Chosen(base) + [f'.attr as nat]
  {
    hide StackOk, Chosen, FrameOk, ToSet;
    assert base + [f', fresh'] == (base + [f']) + [fresh'];
    ChosenPush(base, f');
    ChosenPush(base + [f'], fresh');
    ToSetAppend(Chosen(base), f'.attr);
    FreshFrame(edges, f', ToSet(Chosen(base)));
    StackPush(edges, base, f');
    StackPush(edges, base + [f'], fresh');
  }

  lemma FreshFrame(edges: seq<Edge>, f: GenFrame, cur: set<nat>)
    requires FrameOk(edges, f, cur) && f.attr >= 0
    ensures FrameOk(edges, GenFrame(f.index + 1, -1, -1), cur + {f.attr as nat})
  {
    forall k | 0 <= k < f.index + 1 ensures Hits(cur + {f.attr as nat}, edges[k]) {
      if k < f.index {
        assert Hits(cur, edges[k]);
      }
    }
  }

  lemma Pushed(edges: seq<Edge>, base: seq<GenFrame>, f: GenFrame, f': GenFrame, fresh': GenFrame,
               results: seq<seq<nat>>)
    requires AllAhead(edges, base + [f], results)
    requires f'.index < |edges| && 0 < f'.ai <= |edges[f'.index]| && f'.attr == edges[f'.index][f'.ai - 1]
    requires f'.attr >= 0 && fresh' == GenFrame(f'.index + 1, -1, -1)
    requires if f.ai < 0 then true else f.index == f'.index && f.ai < f'.ai
    requires Useless(edges, ToSet(Chosen(base)), edges[f'.index], if f.ai < 0 then 0 else f.ai, f'.ai - 1)
    ensures AllAhead(edges, base + [f', fresh'], results)
  {
    hide IsMinimalTransversal, Ahead, Useless;
    assert base + [f', fresh'] == (base + [f']) + [fresh'];
    forall t: set<nat> | IsMinimalTransversal(edges, t) && !Found(results, t)
      ensures AheadOfSome(edges, base + [f', fresh'], t)
    {
      AheadOfPush(edges, base, f, t);
      AheadOfPush(edges, base, f', t);
      AheadOfPush(edges, base + [f'], fresh', t);
      if !AheadOfSome(edges, base, t) {
        AheadOfPushed(edges, f, ToSet(Chosen(base)), f', fresh', t);
        ChosenPush(base, f');
        assert ToSet(Chosen(base + [f'])) == ToSet(Chosen(base)) + {f'.attr as nat};
      }
    }
  }

  lemma AheadOfPushed(edges: seq<Edge>, f: GenFrame, cur: set<nat>, f': GenFrame, fresh': GenFrame, t: set<nat>)
    requires IsMinimalTransversal(edges, t) && Ahead(edges, f, cur, t)
    requires f'.index < |edges| && 0 < f'.ai <= |edges[f'.index]| && f'.attr == edges[f'.index][f'.ai - 1]
    requires f'.attr >= 0 && fresh' == GenFrame(f'.index + 1, -1, -1)
    requires if f.ai < 0 then true else f.index == f'.index && f.ai < f'.ai
    requires Useless(edges, cur, edges[f'.index], if f.ai < 0 then 0 else f.ai, f'.ai - 1)
    ensures Ahead(edges, f', cur, t) || Ahead(edges, fresh', cur + {f'.attr as nat}, t)
  {
    AheadOfEdge(edges, f, cur, f'.index, if f.ai < 0 then 0 else f.ai, f'.ai - 1, t);
    hide IsMinimalTransversal, Useless;
    var p :| f'.ai - 1 <= p < |edges[f'.index]| && edges[f'.index][p] in t;
  }

  lemma TopFrame(edges: seq<Edge>, base: seq<GenFrame>, f: GenFrame)
    requires StackOk(edges, base + [f])
    ensures StackOk(edges, base) && FrameOk(edges, f, ToSet(Chosen(base))) && |base| <= f.index <= |edges|
    ensures base != [] ==> base[|base| - 1].attr >= 0
    ensures Chosen(base + [f]) == Chosen(base) + (if f.attr >= 0 then [f.attr as nat] else [])
    ensures ToSet(Chosen(base)) <= ToSet(Chosen(base + [f]))
  {
    ChosenPush(base, f);
    StackPush(edges, base, f);
  }

  lemma HitsAll(edges: seq<Edge>, cur: set<nat>)
    requires forall k | 0 <= k < |edges| :: Hits(cur, edges[k])
    ensures IsTransversal(edges, cur)
  {}

  /** Nothing is ahead of a frame whose attributes have all been tried in vain. */
  lemma Exhausted(edges: seq<Edge>, f: GenFrame, cur: set<nat>, index: nat, results: seq<seq<nat>>)
    requires index < |edges| && (if f.ai < 0 then true else f.index == index && f.ai <= |edges[index]|)
    requires Useless(edges, cur, edges[index], if f.ai < 0 then 0 else f.ai, |edges[index]|)
    ensures forall t: set<nat> | IsMinimalTransversal(edges, t) && Ahead(edges, f, cur, t) :: Found(results, t)
  {
    hide IsMinimalTransversal, Useless, Ahead;
    forall t: set<nat> | IsMinimalTransversal(edges, t) ensures !Ahead(edges, f, cur, t) {
      if Ahead(edges, f, cur, t) {
        AheadOfEdge(edges, f, cur, index, if f.ai < 0 then 0 else f.ai, |edges[index]|, t);
      }
    }
  }

  // ---- termination ----

  /** A bound on the turns spent on a frame that starts at edge `index`. */
  ghost function FrameCost(edges: seq<Edge>, maxAttr: nat, index: nat): nat
    decreases |edges| - index
  {
    1 + if index >= |edges| then 0 else Times(maxAttr, 1 + FrameCost(edges, maxAttr, index + 1))
  }

  ghost function Times(n: nat, x: nat): nat {
    if n == 0 then 0 else x + Times(n - 1, x)
  }

  ghost function FrameWork(edges: seq<Edge>, maxAttr: nat, f: GenFrame): nat {
    if f.ai < 0 then FrameCost(edges, maxAttr, f.index)
    else if f.index < |edges| && f.ai <= |edges[f.index]| then
      1 + Times(|edges[f.index]| - f.ai, 1 + FrameCost(edges, maxAttr, f.index + 1))
    else 1
  }

  ghost function Work(edges: seq<Edge>, maxAttr: nat, frames: seq<GenFrame>): nat {
    if frames == [] then 0
    else Work(edges, maxAttr, frames[..|frames| - 1]) + FrameWork(edges, maxAttr, frames[|frames| - 1])
  }

  lemma {:induction false} TimesMonotone(m: nat, n: nat, x: nat)
    requires m <= n
    ensures Times(m, x) <= Times(n, x) && (m < n ==> Times(m, x) + x <= Times(n, x))
  {
    if m < n { TimesMonotone(m, n - 1, x); }
  }

  lemma {:induction false} CostMonotone(edges: seq<Edge>, maxAttr: nat, index: nat, later: nat)
    requires index <= later
    ensures FrameCost(edges, maxAttr, later) <= FrameCost(edges, maxAttr, index)
    decreases later - index
  {
    if index < later {
      CostMonotone(edges, maxAttr, index + 1, later);
      if index < |edges| && maxAttr > 0 {
        TimesMonotone(1, maxAttr, 1 + FrameCost(edges, maxAttr, index + 1));
      } else if index < |edges| {
        CostOfNothing(edges, index);
        CostOfNothing(edges, later);
      }
    }
  }

  lemma CostOfNothing(edges: seq<Edge>, index: nat)
    ensures FrameCost(edges, 0, index) == 1
  {}

  /** Trying one more attribute uses up more than the frame it opens may cost. */
  lemma PushedWork(edges: seq<Edge>, maxAttr: nat, base: seq<GenFrame>, f: GenFrame, f': GenFrame, fresh': GenFrame)
    requires EdgesOk(edges, maxAttr) && f'.index < |edges| && 0 < f'.ai <= |edges[f'.index]|
    requires fresh' == GenFrame(f'.index + 1, -1, -1)
    requires if f.ai < 0 then f.index <= f'.index else f.index == f'.index && f.ai < f'.ai
    ensures Work(edges, maxAttr, base + [f', fresh']) < Work(edges, maxAttr, base + [f])
  {
    hide Times;
    var frames := base + [f', fresh'];
    assert frames[..|base| + 1] == base + [f'] && (base + [f'])[..|base|] == base && (base + [f])[..|base|] == base;
    var size, x := |edges[f'.index]|, 1 + FrameCost(edges, maxAttr, f'.index + 1);
    assert forall p | 0 <= p < size :: edges[f'.index][p] in edges[f'.index];
    Pigeonhole(edges[f'.index], maxAttr);
    TimesMonotone(size - f'.ai, size - (if f.ai < 0 then 0 else f.ai), x);
    if f.ai < 0 {
      CostMonotone(edges, maxAttr, f.index, f'.index);
      TimesMonotone(size, maxAttr, x);
    }
  }

  lemma PoppedWork(edges: seq<Edge>, maxAttr: nat, base: seq<GenFrame>, f: GenFrame)
    ensures Work(edges, maxAttr, base) < Work(edges, maxAttr, base + [f])
  {
    assert (base + [f])[..|base|] == base;
  }

  /** The inverse index: for each attribute the edges that hold it, in order. */
  method IndexEdges(edges: seq<Edge>, n: nat) returns (index: seq<seq<nat>>)
    requires EdgesOk(edges, n)
    ensures |index| == n && AttrEdgesOk(edges, index)
  {
    index := seq(n, a => []);
    for e := 0 to |edges|
      invariant |index| == n && AttrEdgesOk(edges[..e], index)
    {
      ghost var before := index;
      for i := 0 to |edges[e]|
        invariant |index| == n
        invariant forall a | 0 <= a < n :: index[a] == before[a] + (if a in edges[e][..i] then [e] else [])
      {
        var a := edges[e][i];
        assert a in edges[e] && a !in edges[e][..i];
        assert edges[e][..i + 1] == edges[e][..i] + [a];
        index := index[a := index[a] + [e]];
      }
      assert edges[e][..|edges[e]|] == edges[e];
      assert edges[..e + 1] == edges[..e] + [edges[e]];
      forall a | 0 <= a < n ensures NoRepeats(index[a])
        && forall k: nat :: k in index[a] <==> k < e + 1 && a in edges[..e + 1][k] {
        assert forall k | 0 <= k < |before[a]| :: before[a][k] in before[a];
      }
    }
    assert edges[..|edges|] == edges;
  }

  class GenState {
    const edges: seq<Edge>
    const maxAttr: nat
    /** per attribute: the edges that hold it */
    const attrEdges: seq<seq<nat>>
    const edgeHit: array<int>
    const inCurrent: array<bool>
    var currentList: seq<nat>
    var results: seq<seq<nat>>

    /** The index is right, and the counters count the hits of the current choice. */
    ghost predicate Valid()
      reads this, edgeHit, inCurrent
    {
      && |attrEdges| == maxAttr == inCurrent.Length && edgeHit.Length == |edges|
      && EdgesOk(edges, maxAttr) && AttrEdgesOk(edges, attrEdges)
      && NoRepeats(currentList) && (forall a | a in currentList :: a < maxAttr)
      && (forall a | 0 <= a < maxAttr :: inCurrent[a] <==> a in currentList)
      && CountersOk(edges, edgeHit[..], ToSet(currentList))
    }

    /** Nothing is chosen yet. */
    constructor (edges: seq<Edge>, n: nat)
      requires EdgesOk(edges, n)
      ensures Valid() && this.edges == edges && maxAttr == n && currentList == [] && results == []
      ensures fresh(edgeHit) && fresh(inCurrent)
    {
      var index := IndexEdges(edges, n);
      this.edges, maxAttr, attrEdges := edges, n, index;
      edgeHit := new int[|edges|](k => 0);
      inCurrent := new bool[n](k => false);
      currentList, results := [], [];
      new;
      forall k | 0 <= k < |edges| ensures Hit(edges, {}, k) == 0 {
        HitIsZero(edges, {}, k);
      }
      assert ToSet([]) == {};
    }

    method Bump(row: seq<nat>, delta: int)
      requires NoRepeats(row) && forall k | k in row :: k < edgeHit.Length
      modifies edgeHit
      ensures forall k | 0 <= k < edgeHit.Length :: edgeHit[k] == old(edgeHit[k]) + (if k in row then delta else 0)
    {
      for i := 0 to |row|
        invariant forall k | 0 <= k < edgeHit.Length ::
          edgeHit[k] == old(edgeHit[k]) + (if k in row[..i] then delta else 0)
      {
        assert row[i] in row && row[i] !in row[..i];
        assert row[..i + 1] == row[..i] + [row[i]];
        edgeHit[row[i]] := edgeHit[row[i]] + delta;
      }
      assert row[..|row|] == row;
    }

    method AddAttr(attr: nat)
      requires Valid() && attr < maxAttr && attr !in currentList
      modifies `currentList, inCurrent, edgeHit
      ensures Valid() && currentList == old(currentList) + [attr]
    {
      ghost var cur := ToSet(currentList);
      inCurrent[attr] := true;
      currentList := currentList + [attr];
      assert ToSet(currentList) == cur + {attr};
      Bump(attrEdges[attr], 1);
      CountersStep(edges, attrEdges[attr], old(edgeHit[..]), edgeHit[..], cur, attr);
    }

    /** Undoes AddAttr for the attribute on top of the list. */
    method RemoveAttr(attr: nat)
      requires Valid() && currentList != [] && currentList[|currentList| - 1] == attr
      modifies `currentList, inCurrent, edgeHit
      ensures Valid() && currentList == old(currentList)[..|old(currentList)| - 1]
    {
      assert attr in currentList;
      ghost var was := currentList;
      inCurrent[attr] := false;
      currentList := currentList[..|currentList| - 1];
      ghost var cur := ToSet(currentList);
      assert was == currentList + [attr];
      assert forall a :: a in was <==> a in currentList || a == attr;
      assert ToSet(was) == cur + {attr} && attr !in cur;
      Bump(attrEdges[attr], -1);
      CountersStep(edges, attrEdges[attr], edgeHit[..], old(edgeHit[..]), cur, attr);
    }

    /** Whether some chosen attribute has lost its last edge of its own. */
    method IsAlreadyCovered() returns (r: bool)
      requires Valid()
      ensures r <==> !Irredundant(edges, ToSet(currentList))
    {
      for i := 0 to |currentList|
        invariant forall j | 0 <= j < i :: HasOwnEdge(edges, ToSet(currentList), currentList[j])
      {
        assert currentList[i] in currentList;
        var coversAll := CoversAll(currentList[i]);
        if coversAll {
          return true;
        }
      }
      return false;
    }

    /** Whether every edge of the chosen attribute is hit by another one, too. */
    method CoversAll(attr: nat) returns (r: bool)
      requires Valid() && attr in currentList
      ensures r <==> !HasOwnEdge(edges, ToSet(currentList), attr)
    {
      ghost var cur := ToSet(currentList);
      var row := attrEdges[attr];
      for j := 0 to |row|
        invariant forall p | 0 <= p < j :: row[p] < |edges| && !Private(edges, cur, attr, row[p])
      {
        assert row[j] in row;
        HitIsOne(edges, cur, attr, row[j]);
        if edgeHit[row[j]] <= 1 {
          return false;
        }
      }
      forall k: nat | k < |edges| ensures !Private(edges, cur, attr, k) {
        if attr in edges[k] { assert k in row; }
      }
      return true;
    }

    method AddResult()
      requires Valid()
      modifies `results
      ensures |results| == |old(results)| + 1 && results[..|old(results)|] == old(results)
      ensures Derivation.Sorted(ToSet(currentList), results[|old(results)|])
    {
      var arr: seq<nat> := [];
      for a := 0 to maxAttr
        invariant Derivation.Sorted(Derivation.Below(ToSet(currentList), a), arr)
      {
        if inCurrent[a] {
          assert forall p | 0 <= p < |arr| :: arr[p] in arr;
          assert forall x: nat :: x in arr + [a] <==> x in arr || x == a;
          arr := arr + [a];
        }
      }
      assert Derivation.Below(ToSet(currentList), maxAttr) == ToSet(currentList);
      results := results + [arr];
    }

    /** Tries the attributes of the chosen edge from position f.ai on, up to the first one
        that leaves every chosen attribute an edge of its own. */
    method NextAttr(f: GenFrame) returns (f': GenFrame, pushed: bool)
      requires Valid() && f.index < |edges| && 0 <= f.ai <= |edges[f.index]| && f.attr < 0
      requires !Hits(ToSet(currentList), edges[f.index])
      modifies `currentList, inCurrent, edgeHit
      ensures Valid() && f'.index == f.index && f.ai <= f'.ai <= |edges[f.index]|
      ensures pushed ==>
        && f.ai < f'.ai && f'.attr == edges[f.index][f'.ai - 1] && f'.attr !in old(currentList)
        && currentList == old(currentList) + [f'.attr as nat] && Irredundant(edges, ToSet(currentList))
      ensures !pushed ==> currentList == old(currentList) && f'.ai == |edges[f.index]| && f'.attr < 0
      ensures Useless(edges, ToSet(old(currentList)), edges[f.index], f.ai, if pushed then f'.ai - 1 else f'.ai)
    {
      var edge := edges[f.index];
      var ai := f.ai;
      ghost var cur := ToSet(currentList);
      while ai < |edge|
        invariant f.ai <= ai <= |edge| && Valid() && currentList == old(currentList)
        invariant Useless(edges, cur, edge, f.ai, ai)
      {
        var attr := edge[ai];
        ai := ai + 1;
        assert attr in edge;
        if !inCurrent[attr] {
          AddAttr(attr);
          assert ToSet(currentList) == cur + {attr};
          var covered := IsAlreadyCovered();
          if !covered {
            return GenFrame(f.index, ai, attr), true;
          }
          RemoveAttr(attr);
          assert currentList == old(currentList);
        }
      }
      return GenFrame(f.index, ai, -1), false;
    }

    /** The whole search: lists every minimal transversal, possibly several times, and
        nothing else.  The stack never holds more than one frame per edge and one more. */
    method GenerateCovers()
      requires Valid() && currentList == [] && results == []
      modifies this, edgeHit, inCurrent
      ensures Valid() && currentList == []
      ensures forall t: set<nat> :: Found(results, t) <==> IsMinimalTransversal(edges, t)
      ensures OnlyMinimal(edges, results)
    {
      var frames := [GenFrame(0, -1, -1)];
      FirstFrame(edges);
      while frames != []
        invariant Valid() && StackOk(edges, frames) && |frames| <= |edges| + 1
        invariant currentList == Chosen(frames) && Irredundant(edges, ToSet(currentList))
        invariant OnlyMinimal(edges, results) && AllAhead(edges, frames, results)
        decreases Work(edges, maxAttr, frames)
      {
        frames := Turn(frames);
      }
      assert Chosen([]) == [];
      forall t: set<nat> ensures Found(results, t) <==> IsMinimalTransversal(edges, t) {
        FoundIsMinimal(edges, results, t);
      }
    }

    /** Undoes the last choice of the top frame and moves on to the first edge that is not
        hit. */
    method NextEdge(f: GenFrame, ghost cur: seq<nat>) returns (index: nat)
      requires Valid() && FrameOk(edges, f, ToSet(cur))
      requires currentList == cur + (if f.attr >= 0 then [f.attr as nat] else [])
      modifies `currentList, inCurrent, edgeHit
      ensures Valid() && currentList == cur && f.index <= index <= |edges|
      ensures forall k | 0 <= k < index :: Hits(ToSet(cur), edges[k])
      ensures index < |edges| ==> !Hits(ToSet(cur), edges[index])
      ensures f.ai >= 0 ==> index == f.index && index < |edges|
    {
      if f.attr >= 0 {
        RemoveAttr(f.attr);
      }
      assert currentList == cur;
      assert CountersOk(edges, edgeHit[..], ToSet(cur));
      index := f.index;
      while index < |edges| && edgeHit[index] > 0
        invariant Valid() && currentList == cur
        invariant f.index <= index <= |edges| && (f.ai >= 0 ==> index == f.index)
        invariant forall k | 0 <= k < index :: Hits(ToSet(cur), edges[k])
      {
        HitIsZero(edges, ToSet(cur), index);
        index := index + 1;
      }
      if index < |edges| {
        HitIsZero(edges, ToSet(cur), index);
      }
    }

    /** Every edge is hit: the choice is reported, and the frame is done with. */
    method Report(ghost base: seq<GenFrame>, ghost f: GenFrame)
      requires Valid() && currentList == Chosen(base) && Irredundant(edges, ToSet(currentList))
      requires forall k | 0 <= k < |edges| :: Hits(ToSet(currentList), edges[k])
      requires OnlyMinimal(edges, results) && AllAhead(edges, base + [f], results)
      modifies `results
      ensures Valid() && OnlyMinimal(edges, results) && AllAhead(edges, base, results)
    {
      hide IsMinimalTransversal, Irredundant, AllAhead, OnlyMinimal;
      ghost var before, cur := results, ToSet(currentList);
      AddResult();
      HitsAll(edges, cur);
      Reported(edges, f, cur, before, results[|before|]);
      assert results == before + [results[|before|]];
      Popped(edges, base, f, before, results);
    }

    /** Tries the attributes of the edge at `index`: opens a frame above the first one that
        fits, or gives up the frame. */
    method Choose(base: seq<GenFrame>, f: GenFrame, index: nat) returns (frames: seq<GenFrame>)
      requires Valid() && StackOk(edges, base) && (base != [] ==> base[|base| - 1].attr >= 0)
      requires FrameOk(edges, f, ToSet(Chosen(base))) && |base| <= f.index <= index < |edges| && |base| <= |edges|
      requires currentList == Chosen(base) && Irredundant(edges, ToSet(currentList))
      requires forall k | 0 <= k < index :: Hits(ToSet(currentList), edges[k])
      requires !Hits(ToSet(currentList), edges[index]) && (f.ai >= 0 ==> index == f.index)
      requires AllAhead(edges, base + [f], results)
      modifies `currentList, inCurrent, edgeHit
      ensures Valid() && StackOk(edges, frames) && |frames| <= |edges| + 1
      ensures currentList == Chosen(frames) && Irredundant(edges, ToSet(currentList))
      ensures AllAhead(edges, frames, results)
      ensures Work(edges, maxAttr, frames) < Work(edges, maxAttr, base + [f])
    {
      hide IsMinimalTransversal, Irredundant, AllAhead, Work, StackOk, CountersOk, NoRepeats, AttrEdgesOk;
      ghost var cur := ToSet(currentList);
      var f', pushed := NextAttr(GenFrame(index, if f.ai < 0 then 0 else f.ai, -1));
      if pushed {
        var fresh' := GenFrame(index + 1, -1, -1);
        frames := base + [f', fresh'];
        assert f'.attr in edges[index];
        Pushed(edges, base, f, f', fresh', results);
        PushedStack(edges, base, f', fresh');
        PushedWork(edges, maxAttr, base, f, f', fresh');
      } else {
        Exhausted(edges, f, cur, index, results);
        Popped(edges, base, f, results, results);
        PoppedWork(edges, maxAttr, base, f);
        frames := base;
      }
    }

    /** One turn of the search: undo the last choice of the top frame, move on to the first
        edge that is not hit, then report, choose again, or give up the frame. */
    method Turn(frames0: seq<GenFrame>) returns (frames: seq<GenFrame>)
      requires Valid() && StackOk(edges, frames0) && frames0 != [] && |frames0| <= |edges| + 1
      requires currentList == Chosen(frames0) && Irredundant(edges, ToSet(currentList))
      requires OnlyMinimal(edges, results) && AllAhead(edges, frames0, results)
      modifies this, edgeHit, inCurrent
      ensures Valid() && StackOk(edges, frames) && |frames| <= |edges| + 1
      ensures currentList == Chosen(frames) && Irredundant(edges, ToSet(currentList))
      ensures OnlyMinimal(edges, results) && AllAhead(edges, frames, results)
      ensures Work(edges, maxAttr, frames) < Work(edges, maxAttr, frames0)
    {
      hide *;
      var f, base := frames0[|frames0| - 1], frames0[..|frames0| - 1];
      assert frames0 == base + [f];
      TopFrame(edges, base, f);
      IrredundantSubset(edges, ToSet(Chosen(base)), ToSet(currentList));
      var index := NextEdge(f, Chosen(base));
      if index >= |edges| {
        Report(base, f);
        PoppedWork(edges, maxAttr, base, f);
        frames := base;
      } else {
        frames := Choose(base, f, index);
      }
    }
  }

  ghost predicate CountersOk(edges: seq<Edge>, hit: seq<int>, cur: set<nat>) {
    |hit| == |edges| && forall k | 0 <= k < |edges| :: hit[k] == Hit(edges, cur, k)
  }

  /** Counting the edges of a up by one is what choosing a means, and counting them down
      undoes it. */
  lemma CountersStep(edges: seq<Edge>, row: seq<nat>, hit: seq<int>, hit': seq<int>, cur: set<nat>, a: nat)
    requires |hit| == |hit'| == |edges| && a !in cur
    requires forall k: nat :: k in row <==> k < |edges| && a in edges[k]
    requires forall k | 0 <= k < |edges| :: hit'[k] == hit[k] + (if k in row then 1 else 0)
    ensures CountersOk(edges, hit, cur) <==> CountersOk(edges, hit', cur + {a})
  {
    forall k | 0 <= k < |edges| ensures hit[k] == Hit(edges, cur, k) <==> hit'[k] == Hit(edges, cur + {a}, k) {
      HitStep(edges, cur, a, k);
    }
  }

  ghost predicate EdgesOk(edges: seq<Edge>, n: nat) {
    forall k | 0 <= k < |edges| :: NoRepeats(edges[k]) && forall a | a in edges[k] :: a < n
  }

  ghost predicate AttrEdgesOk(edges: seq<Edge>, attrEdges: seq<seq<nat>>) {
    forall a | 0 <= a < |attrEdges| ::
      NoRepeats(attrEdges[a]) && forall k: nat :: k in attrEdges[a] <==> k < |edges| && a in edges[k]
  }
}
