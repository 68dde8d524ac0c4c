/** The search of Ceres: going down from the top, a concept is looked at when all its parents
    have been; those met that have no child among them are the upper covers of the new one. */
module CeresSearch {
  import opened FiniteSets
  import opened LiveDiagram
  import opened DynOrders
  import AresMoves

  /** A diagram with the top in place 0. */
  ghost predicate Rooted(ext: seq<set<nat>>, live: set<nat>, lower: seq<set<nat>>, upper: seq<set<nat>>) {
    && LiveHasse(ext, live, lower) && Mirrored(lower, upper) && live == Range(|ext|) && |ext| > 0
    && forall c | 0 <= c < |ext| :: ext[c] <= ext[0]
  }

  /** The concepts around e whose parents are all in deq. */
  ghost function Ripe(ext: seq<set<nat>>, upper: seq<set<nat>>, e: set<nat>, deq: set<nat>): set<nat>
    requires |upper| == |ext|
  {
    set c: nat | c < |ext| && IsRipe(ext, upper, e, deq, c)
  }

  ghost predicate IsRipe(ext: seq<set<nat>>, upper: seq<set<nat>>, e: set<nat>, deq: set<nat>, c: nat)
    requires |upper| == |ext| && c < |ext|
  {
    e <= ext[c] && upper[c] <= deq
  }

  ghost predicate Around(ext: seq<set<nat>>, e: set<nat>, s: set<nat>) {
    forall c: nat :: c in s <==> c < |ext| && e <= ext[c]
  }

  lemma UpperIsAbove(ext: seq<set<nat>>, live: set<nat>, lower: seq<set<nat>>, upper: seq<set<nat>>, c: nat, p: nat)
    requires Rooted(ext, live, lower, upper) && c < |ext| && p in upper[c]
    ensures p < |ext| && ext[c] < ext[p] && p != c
  {
    assert c in lower[p] && lower[p] == LowerOf(ext, live, p);
  }

  lemma HasParent(ext: seq<set<nat>>, live: set<nat>, lower: seq<set<nat>>, upper: seq<set<nat>>, c: nat)
    requires Rooted(ext, live, lower, upper) && 0 < c < |ext|
    ensures upper[c] != {}
  {
    assert ext[c] != ext[0];
    var w := LiveDiagram.CoverAbove(ext, live, c, 0);
    assert w in live && lower[w] == LowerOf(ext, live, w);
    assert w in upper[c];
  }

  /** At first only the top is ripe. */
  lemma TopIsRipe(ext: seq<set<nat>>, live: set<nat>, lower: seq<set<nat>>, upper: seq<set<nat>>, e: set<nat>)
    requires Rooted(ext, live, lower, upper) && e <= ext[0]
    ensures |upper| == |ext| && Ripe(ext, upper, e, {}) == {0}
  {
    forall c: nat | c < |ext| ensures IsRipe(ext, upper, e, {}, c) <==> c == 0 {
      if c > 0 {
        HasParent(ext, live, lower, upper, c);
      } else {
        forall p ensures p !in upper[0] {
          if p in upper[0] { UpperIsAbove(ext, live, lower, upper, 0, p); }
        }
      }
    }
  }

  /** Once every ripe concept has been looked at, those are all the concepts around e. */
  lemma {:induction false} AllAround(ext: seq<set<nat>>, live: set<nat>, lower: seq<set<nat>>, upper: seq<set<nat>>,
                                     e: set<nat>, deq: set<nat>, c: nat)
    requires Rooted(ext, live, lower, upper) && Ripe(ext, upper, e, deq) <= deq && c < |ext| && e <= ext[c]
    ensures c in deq
    decreases |ext[0] - ext[c]|
  {
    forall p | p in upper[c] ensures p in deq {
      UpperIsAbove(ext, live, lower, upper, c, p);
      assert ext[0] - ext[p] < ext[0] - ext[c] by { var x :| x in ext[p] && x !in ext[c]; assert x in ext[0]; }
      SubsetCard(ext[0] - ext[p], ext[0] - ext[c]);
      AllAround(ext, live, lower, upper, e, deq, p);
    }
    assert IsRipe(ext, upper, e, deq, c);
  }

  lemma ChildTowards(ext: seq<set<nat>>, live: set<nat>, lower: seq<set<nat>>, upper: seq<set<nat>>, e: set<nat>,
                     deq: set<nat>, v: nat, k: nat) returns (w: nat)
    requires Rooted(ext, live, lower, upper) && Around(ext, e, deq) && v < |ext| && k < |ext| && e <= ext[k]
      && ext[k] < ext[v]
    ensures w in deq && w < |upper| && v in upper[w]
  {
    w := AresMoves.LargestAround(ext, live, ext[v], k);
    AresMoves.LowerAreLargest(ext, live, lower, v);
    assert w in lower[v];
  }

  /** Those without a child among the concepts around e are the least ones strictly around
      it. */
  lemma ChildlessAreMinimal(ext: seq<set<nat>>, live: set<nat>, lower: seq<set<nat>>, upper: seq<set<nat>>,
                            e: set<nat>, deq: set<nat>, v: nat)
    requires Rooted(ext, live, lower, upper) && Around(ext, e, deq) && forall c | 0 <= c < |ext| :: ext[c] != e
    ensures v in deq && (forall d | d in deq :: d < |upper| && v !in upper[d]) <==> v in MinAbove(ext, live, e)
  {
    if v in deq && forall d | d in deq :: d < |upper| && v !in upper[d] {
      forall k | k in live && k < |ext| ensures !(e < ext[k] < ext[v]) {
        if e < ext[k] < ext[v] {
          var w := ChildTowards(ext, live, lower, upper, e, deq, v, k);
        }
      }
      assert IsMinAbove(ext, live, e, v);
    }
    if v in MinAbove(ext, live, e) {
      assert IsMinAbove(ext, live, e, v);
      forall d | d in deq ensures d < |upper| && v !in upper[d] {
        if v in upper[d] { UpperIsAbove(ext, live, lower, upper, d, v); }
      }
    }
  }

  // ---- the state of the search ----

  /** A counter is in use once a parent has been looked at; it tells how many are missing. */
  ghost predicate CounterOk(upper: seq<set<nat>>, deq: set<nat>, marks: seq<int>, markEpoch: seq<int>, epoch: int,
                            c: nat)
    requires c < |upper| <= |marks| == |markEpoch|
  {
    if upper[c] * deq == {} then markEpoch[c] != epoch
    else markEpoch[c] == epoch && marks[c] == |upper[c] - deq|
  }

  ghost predicate Counters(upper: seq<set<nat>>, deq: set<nat>, marks: seq<int>, markEpoch: seq<int>, epoch: int) {
    |upper| <= |marks| == |markEpoch|
      && forall c | 0 <= c < |upper| :: CounterOk(upper, deq, marks, markEpoch, epoch, c)
  }

  /** Marked as parent: looked at, and no child of it has been. */
  ghost predicate Childless(upper: seq<set<nat>>, deq: set<nat>, puc: seq<int>, epoch: int) {
    && |upper| <= |puc| && deq <= Range(|upper|)
    && forall c | 0 <= c < |upper| :: puc[c] == epoch <==> c in deq && forall d | d in deq :: c !in upper[d]
  }

  /** What has been looked at was ripe before. */
  ghost predicate Upward(upper: seq<set<nat>>, deq: set<nat>) {
    forall d | d in deq && d < |upper| :: upper[d] <= deq
  }

  lemma MarkParent(upper: seq<set<nat>>, deq: set<nat>, puc: seq<int>, epoch: int, cur: nat, puc': seq<int>)
    requires Childless(upper, deq, puc, epoch) && Upward(upper, deq) && cur < |upper| && cur !in deq
      && cur !in upper[cur] && epoch > 0
    requires |puc'| == |puc|
      && forall c | 0 <= c < |puc| :: puc'[c] == if c in upper[cur] then 0 else if c == cur then epoch else puc[c]
    ensures Childless(upper, deq + {cur}, puc', epoch)
  {
    forall c | 0 <= c < |upper|
      ensures puc'[c] == epoch <==> c in deq + {cur} && forall d | d in deq + {cur} :: c !in upper[d] {
      assert c in upper[cur] ==> cur in deq + {cur};
    }
  }

  lemma CounterUntouched(upper: seq<set<nat>>, deq: set<nat>, marks: seq<int>, markEpoch: seq<int>, epoch: int,
                         cur: nat, c: nat)
    requires c < |upper| <= |marks| == |markEpoch| && cur !in upper[c]
    ensures CounterOk(upper, deq + {cur}, marks, markEpoch, epoch, c)
      <==> CounterOk(upper, deq, marks, markEpoch, epoch, c)
  {
    assert upper[c] * (deq + {cur}) == upper[c] * deq && upper[c] - (deq + {cur}) == upper[c] - deq;
  }

  /** Counting one more parent. */
  lemma CountParent(upper: seq<set<nat>>, deq: set<nat>, marks: seq<int>, markEpoch: seq<int>, epoch: int, cur: nat,
                    c: nat,
                    marks': seq<int>, markEpoch': seq<int>)
    requires c < |upper| <= |marks| == |markEpoch| == |marks'| == |markEpoch'| && cur in upper[c] && cur !in deq
    requires CounterOk(upper, deq, marks, markEpoch, epoch, c) && markEpoch'[c] == epoch
    requires marks'[c] == (if markEpoch[c] != epoch then |upper[c]| else marks[c]) - 1
    ensures CounterOk(upper, deq + {cur}, marks', markEpoch', epoch, c)
    ensures marks'[c] == 0 <==> upper[c] <= deq + {cur}
  {
    assert cur in upper[c] * (deq + {cur});
    if upper[c] * deq == {} { assert upper[c] - deq == upper[c]; }
    RemoveOne(upper[c], deq, cur);
    NoneMissing(upper[c], deq + {cur});
  }

  class Searcher {
    const ord: DynOrder
    var marks: seq<int>
    var markEpoch: seq<int>
    var puc: seq<int>
    var epoch: int

    /** The buffers are as long as the number of concepts may become; no entry is dated later
        than the current search. */
    ghost predicate Valid()
      reads this
    {
      && |marks| == |markEpoch| == |puc| && epoch >= 0
      && forall c | 0 <= c < |marks| :: markEpoch[c] <= epoch && puc[c] <= epoch
    }

    constructor (ord: DynOrder, maxConcepts: nat)
      ensures Valid() && this.ord == ord && |marks| == maxConcepts
    {
      this.ord := ord;
      marks := seq(maxConcepts, i => 0);
      markEpoch := seq(maxConcepts, i => 0);
      puc := seq(maxConcepts, i => 0);
      epoch := 0;
    }

    /** Marks cur as parent in place of its own parents. */
    method MarkAsParent(cur: nat, ghost deq: set<nat>)
      requires Valid() && ord.Valid() && |ord.ext| <= |puc| && cur < |ord.ext| && cur !in deq
        && cur !in ord.upper[cur] && epoch > 0
      requires Childless(ord.upper, deq, puc, epoch) && Upward(ord.upper, deq)
      modifies `puc
      ensures Valid() && Childless(ord.upper, deq + {cur}, puc, epoch)
    {
      hide Childless, Upward;
      ghost var puc0 := puc;
      puc := puc[cur := epoch];
      for p := 0 to |ord.ext|
        invariant Valid() && |puc| == |puc0|
        invariant forall c | 0 <= c < |puc| ::
            puc[c] == if c < p && c in ord.upper[cur] then 0 else if c == cur then epoch else puc0[c]
      {
        if p in ord.upper[cur] {
          puc := puc[p := 0];
        }
      }
      assert forall c | c in ord.upper[cur] :: c < |ord.ext|;
      MarkParent(ord.upper, deq, puc0, epoch, cur, puc);
    }

    /** Counts cur for its child c; true when c has no parent left to wait for. */
    method Count(c: nat, cur: nat, ghost deq: set<nat>) returns (zero: bool)
      requires Valid() && ord.Valid() && |ord.ext| <= |marks| && c < |ord.ext| && cur in ord.upper[c] && cur !in deq
      requires CounterOk(ord.upper, deq, marks, markEpoch, epoch, c)
      modifies `marks, `markEpoch
      ensures Valid() && CounterOk(ord.upper, deq + {cur}, marks, markEpoch, epoch, c)
      ensures forall d | 0 <= d < |marks| && d != c :: marks[d] == old(marks)[d] && markEpoch[d] == old(markEpoch)[d]
      ensures zero <==> ord.upper[c] <= deq + {cur}
    {
      ghost var m0, e0 := marks, markEpoch;
      if markEpoch[c] != epoch {
        marks, markEpoch := marks[c := |ord.upper[c]|], markEpoch[c := epoch];
      }
      marks := marks[c := marks[c] - 1];
      zero := marks[c] == 0;
      CountParent(ord.upper, deq, m0, e0, epoch, cur, c, marks, markEpoch);
    }

    /** Counts cur for all its children, and queues those around e that have been waiting for
        it alone. */
    method LookAtChildren(queue0: seq<nat>, e: set<nat>, cur: nat, ghost deq: set<nat>) returns (queue: seq<nat>)
      requires Valid() && ord.Valid() && |ord.ext| <= |marks| && cur < |ord.ext| && cur !in deq
      requires Counters(ord.upper, deq, marks, markEpoch, epoch) && NoRepeats(queue0)
        && ToSet(queue0) == Ripe(ord.ext, ord.upper, e, deq)
      modifies `marks, `markEpoch
      ensures Valid() && Counters(ord.upper, deq + {cur}, marks, markEpoch, epoch) && |marks| == old(|marks|)
      ensures queue0 <= queue && NoRepeats(queue) && ToSet(queue) == Ripe(ord.ext, ord.upper, e, deq + {cur})
    {
      hide IsRipe, CounterOk;
      queue := queue0;
      assert forall c :: c in queue <==> c in ToSet(queue0);
      for c := 0 to |ord.ext|
        invariant Valid() && |marks| == old(|marks|) && queue0 <= queue && NoRepeats(queue)
        invariant forall d | 0 <= d < c :: CounterOk(ord.upper, deq + {cur}, marks, markEpoch, epoch, d)
        invariant forall d | c <= d < |ord.ext| :: CounterOk(ord.upper, deq, marks, markEpoch, epoch, d)
        invariant forall d: nat ::
            d in queue <==> d < |ord.ext| && IsRipe(ord.ext, ord.upper, e, if d < c then deq + {cur} else deq, d)
      {
        ghost var m0, e0 := marks, markEpoch;
        ChildLookedAt(ord.ext, ord.upper, e, deq, cur, c);
        if c in ord.lower[cur] {
          var zero := Count(c, cur, deq);
          if zero && e <= ord.ext[c] {
            assert c !in queue && forall i | 0 <= i < |queue| :: queue[i] in queue;
            queue := queue + [c];
          }
        }
        OthersKept(ord.upper, deq, cur, m0, e0, marks, markEpoch, epoch, c);
      }
      assert forall c :: c in queue <==> c in ToSet(queue);
    }

    /** All concepts around e, the marks of those without a child among them, and for an
        attribute the labels met on the way. */
    method Search(e: set<nat>, intent0: set<nat>, isAttribute: bool) returns (queue: seq<nat>, intent: set<nat>)
      requires Valid() && ord.Valid() && |ord.ext| <= |marks|
      requires Rooted(ord.ext, ord.Live(), ord.lower, ord.upper) && e <= ord.ext[0]
      modifies this
      ensures Valid() && |marks| == old(|marks|) && NoRepeats(queue) && Around(ord.ext, e, ToSet(queue))
      ensures Childless(ord.upper, ToSet(queue), puc, epoch)
      ensures forall a: nat :: a in intent <==> a in intent0 || (isAttribute && SomeLabel(ord.rint, ToSet(queue), a))
    {
      hide Rooted, DynOrder.Live, NoRepeats, Childless, Ripe;
      epoch := epoch + 1;
      queue, intent := [0], intent0;
      var qHead := 0;
      SearchStart(ord.ext, ord.Live(), ord.lower, ord.upper, e, marks, markEpoch, puc, epoch);
      ghost var deq: set<nat> := {};
      hide Counters, Upward, Mirrored, SomeLabel;
      while qHead < |queue|
        invariant qHead <= |queue| && deq == ToSet(queue[..qHead]) && NoRepeats(queue)
        invariant Valid() && epoch > 0 && |marks| == old(|marks|) && ToSet(queue) == Ripe(ord.ext, ord.upper, e, deq)
        invariant Counters(ord.upper, deq, marks, markEpoch, epoch) && Childless(ord.upper, deq, puc, epoch)
          && Upward(ord.upper, deq)
        invariant forall a: nat :: a in intent <==> a in intent0 || (isAttribute && SomeLabel(ord.rint, deq, a))
        decreases |ord.ext| - qHead
      {
        var cur := queue[qHead];
        NextInQueue(ord.ext, ord.Live(), ord.lower, ord.upper, e, queue, qHead, deq);
        MarkAsParent(cur, deq);
        if isAttribute {
          OneMoreLabel(ord.rint, deq, cur);
          intent := intent + ord.rint[cur];
        }
        queue := LookAtChildren(queue, e, cur, deq);
        LookedAt(ord.ext, ord.upper, e, deq, cur);
        deq := deq + {cur};
        qHead := qHead + 1;
        QueueBound(ord.ext, ord.upper, e, queue, deq);
      }
      assert queue[..qHead] == queue;
      SearchEnd(ord.ext, ord.Live(), ord.lower, ord.upper, e, deq);
    }

    /** A new concept at the bottom, below the upper covers found by the search. */
    method Insert(e: set<nat>, intent0: set<nat>, rext: set<nat>, rint: set<nat>, isAttribute: bool)
        returns (c: nat, intent: set<nat>)
      requires Valid() && ord.Valid() && |ord.ext| < |marks|
      requires Rooted(ord.ext, ord.Live(), ord.lower, ord.upper) && e <= ord.ext[0]
      requires forall d | 0 <= d < |ord.ext| :: !(ord.ext[d] <= e)
      modifies this, ord
      ensures Valid() && ord.Valid() && |marks| == old(|marks|) && c == |old(ord.ext)|
      ensures ord.ext == old(ord.ext) + [e] && ord.rext == old(ord.rext) + [rext] && ord.rint == old(ord.rint) + [rint]
      ensures ord.Live() == old(ord.Live()) + {c} && Rooted(ord.ext, ord.Live(), ord.lower, ord.upper)
      ensures IntentMet(old(ord.ext), old(ord.rint), e, intent0, isAttribute, intent)
    {
      ghost var ext0, live0, lower0, rint0 := ord.ext, ord.Live(), ord.lower, ord.rint;
      var queue;
      queue, intent := Search(e, intent0, isAttribute);
      LabelsAround(ext0, e, ToSet(queue), rint0);
      ghost var up := MinAbove(ext0, live0, e);
      ParentsFound(ext0, live0, lower0, ord.upper, e, queue, puc, epoch);
      InRangeQueue(ext0, e, queue);
      hide Rooted, Mirrored, Childless, Around, MinAbove, SomeLabel, LiveHasse;
      c := NewAt(e, rext, rint);
      LinkParents(c, queue, up);
      BottomRooted(ext0, live0, lower0, e, ord.lower, ord.upper);
    }

    method NewAt(e: set<nat>, rext: set<nat>, rint: set<nat>) returns (c: nat)
      requires ord.Valid()
      modifies ord
      ensures ord.Valid() && c == |old(ord.ext)| && ord.Live() == old(ord.Live()) + {c}
        && ord.lower == old(ord.lower) + [{}]
      ensures ord.ext == old(ord.ext) + [e] && ord.rext == old(ord.rext) + [rext] && ord.rint == old(ord.rint) + [rint]
    {
      hide Mirrored;
      c := ord.NewConcept();
      ord.ext, ord.rext, ord.rint := ord.ext[c := e], ord.rext[c := rext], ord.rint[c := rint];
    }

    /** Edges to the marked concepts of the queue. */
    method LinkParents(c: nat, queue: seq<nat>, ghost up: set<nat>)
      requires Valid() && ord.Valid() && c < |ord.ext| <= |puc| && NoRepeats(queue)
      requires forall v | v in queue :: v < |ord.ext| && c !in ord.lower[v] && (puc[v] == epoch <==> v in up)
      requires forall v | v in up :: v in queue
      modifies `puc, ord`lower, ord`upper
      ensures Valid() && ord.Valid() && |ord.lower| == |ord.ext|
      ensures forall v | 0 <= v < |ord.ext| :: ord.lower[v] == old(ord.lower)[v] + (if v in up then {c} else {})
    {
      hide Mirrored;
      ghost var puc0, lower0 := puc, ord.lower;
      for k := 0 to |queue|
        invariant Valid() && ord.Valid() && |puc| == |puc0| && |ord.lower| == |ord.ext|
        invariant forall u: nat | u < |puc| && u !in queue[..k] :: puc[u] == puc0[u]
        invariant forall v | 0 <= v < |ord.ext| ::
            ord.lower[v] == lower0[v] + (if v in queue[..k] && v in up then {c} else {})
      {
        var v := queue[k];
        assert queue[..k + 1] == queue[..k] + [v];
        assert v in queue && v !in queue[..k];
        if puc[v] == epoch {
          ord.AddEdge(c, v);
          puc := puc[v := 0];
        }
      }
      assert queue[..|queue|] == queue;
    }
  }

  /** What the search adds to the intent: the labels of the concepts around e. */
  ghost predicate IntentMet(ext: seq<set<nat>>, rint: seq<set<nat>>, e: set<nat>, intent0: set<nat>,
                            isAttribute: bool, intent: set<nat>)
    requires |rint| == |ext|
  {
    forall a: nat ::
      a in intent <==> a in intent0 || (isAttribute && exists d :: 0 <= d < |ext| && e <= ext[d] && a in rint[d])
  }

  ghost predicate SomeLabel(rint: seq<set<nat>>, deq: set<nat>, a: nat) {
    exists c :: c in deq && c < |rint| && a in rint[c]
  }

  lemma OneMoreLabel(rint: seq<set<nat>>, deq: set<nat>, cur: nat)
    requires cur < |rint|
    ensures forall a: nat :: SomeLabel(rint, deq + {cur}, a) <==> SomeLabel(rint, deq, a) || a in rint[cur]
  {
    forall a: nat ensures SomeLabel(rint, deq + {cur}, a) <==> SomeLabel(rint, deq, a) || a in rint[cur] {
      if SomeLabel(rint, deq + {cur}, a) {
        var c :| c in deq + {cur} && c < |rint| && a in rint[c];
      }
      if a in rint[cur] { assert cur in deq + {cur}; }
    }
  }

  lemma ChildLookedAt(ext: seq<set<nat>>, upper: seq<set<nat>>, e: set<nat>, deq: set<nat>, cur: nat, c: nat)
    requires |upper| == |ext| && c < |ext|
    ensures cur !in upper[c] ==> (IsRipe(ext, upper, e, deq + {cur}, c) <==> IsRipe(ext, upper, e, deq, c))
    ensures cur in upper[c] && cur !in deq ==> !IsRipe(ext, upper, e, deq, c)
    ensures IsRipe(ext, upper, e, deq + {cur}, c) <==> e <= ext[c] && upper[c] <= deq + {cur}
  {}

  lemma OthersKept(upper: seq<set<nat>>, deq: set<nat>, cur: nat, m: seq<int>, me: seq<int>, m': seq<int>,
                   me': seq<int>, epoch: int, c: nat)
    requires |upper| <= |m| == |me| == |m'| == |me'|
    requires forall d | 0 <= d < |m| && d != c :: m'[d] == m[d] && me'[d] == me[d]
    ensures forall d | 0 <= d < |upper|
      && d != c :: CounterOk(upper, deq, m', me', epoch, d) <==> CounterOk(upper, deq, m, me, epoch, d)
    ensures forall d | 0 <= d < |upper|
      && d != c :: CounterOk(upper, deq + {cur}, m', me', epoch, d) <==> CounterOk(upper, deq + {cur}, m, me, epoch, d)
    ensures c < |upper| && cur !in upper[c] && m' == m && me' == me ==>
      (CounterOk(upper, deq + {cur}, m', me', epoch, c) <==> CounterOk(upper, deq, m, me, epoch, c))
  {
    if c < |upper| && cur !in upper[c] { CounterUntouched(upper, deq, m, me, epoch, cur, c); }
  }

  lemma SearchStart(ext: seq<set<nat>>, live: set<nat>, lower: seq<set<nat>>, upper: seq<set<nat>>, e: set<nat>,
                    marks: seq<int>, markEpoch: seq<int>, puc: seq<int>, epoch: int)
    requires Rooted(ext, live, lower, upper) && e <= ext[0] && |ext| <= |marks| == |markEpoch| == |puc|
    requires forall c | 0 <= c < |marks| :: markEpoch[c] < epoch && puc[c] < epoch
    ensures |upper| == |ext| && Ripe(ext, upper, e, {}) == {0} == ToSet([0]) && NoRepeats([0])
    ensures Counters(upper, {}, marks, markEpoch, epoch) && Childless(upper, {}, puc, epoch) && Upward(upper, {})
  {
    TopIsRipe(ext, live, lower, upper, e);
  }

  lemma NextInQueue(ext: seq<set<nat>>, live: set<nat>, lower: seq<set<nat>>, upper: seq<set<nat>>, e: set<nat>,
                    queue: seq<nat>, head: nat, deq: set<nat>)
    requires Rooted(ext, live, lower, upper) && head < |queue| && NoRepeats(queue) && deq == ToSet(queue[..head])
    requires ToSet(queue) == Ripe(ext, upper, e, deq)
    ensures queue[head] < |ext| && queue[head] !in deq && queue[head] !in upper[queue[head]]
      && ToSet(queue[..head + 1]) == deq + {queue[head]}
    ensures upper[queue[head]] <= deq
  {
    var cur := queue[head];
    assert cur in ToSet(queue) && IsRipe(ext, upper, e, deq, cur);
    assert queue[..head + 1] == queue[..head] + [cur];
  }

  lemma LookedAt(ext: seq<set<nat>>, upper: seq<set<nat>>, e: set<nat>, deq: set<nat>, cur: nat)
    requires Upward(upper, deq) && cur < |upper| && upper[cur] <= deq
    ensures Upward(upper, deq + {cur})
  {}

  lemma QueueBound(ext: seq<set<nat>>, upper: seq<set<nat>>, e: set<nat>, queue: seq<nat>, deq: set<nat>)
    requires |upper| == |ext| && NoRepeats(queue) && ToSet(queue) == Ripe(ext, upper, e, deq)
    ensures |queue| <= |ext|
  {
    forall i | 0 <= i < |queue| ensures queue[i] < |ext| {
      assert queue[i] in ToSet(queue);
    }
    Pigeonhole(queue, |ext|);
  }

  lemma SearchEnd(ext: seq<set<nat>>, live: set<nat>, lower: seq<set<nat>>, upper: seq<set<nat>>, e: set<nat>,
                  deq: set<nat>)
    requires Rooted(ext, live, lower, upper) && deq == Ripe(ext, upper, e, deq)
    ensures Around(ext, e, deq)
  {
    forall c: nat | c < |ext| && e <= ext[c] ensures c in deq {
      AllAround(ext, live, lower, upper, e, deq, c);
    }
  }

  lemma LabelsAround(ext: seq<set<nat>>, e: set<nat>, s: set<nat>, rint: seq<set<nat>>)
    requires Around(ext, e, s) && |rint| == |ext|
    ensures forall a: nat :: SomeLabel(rint, s, a) <==> exists d :: 0 <= d < |ext| && e <= ext[d] && a in rint[d]
  {
    forall a: nat ensures SomeLabel(rint, s, a) <==> exists d :: 0 <= d < |ext| && e <= ext[d] && a in rint[d] {
      if d :| 0 <= d < |ext| && e <= ext[d] && a in rint[d] { assert d in s; }
    }
  }

  lemma InRangeQueue(ext: seq<set<nat>>, e: set<nat>, queue: seq<nat>)
    requires Around(ext, e, ToSet(queue))
    ensures forall v | v in queue :: v < |ext|
  {
    assert forall v | v in queue :: v in ToSet(queue);
  }

  /** The marked concepts of the queue are the upper covers. */
  lemma ParentsFound(ext: seq<set<nat>>, live: set<nat>, lower: seq<set<nat>>, upper: seq<set<nat>>, e: set<nat>,
                     queue: seq<nat>, puc: seq<int>, epoch: int)
    requires Rooted(ext, live, lower, upper) && Around(ext, e, ToSet(queue))
      && Childless(upper, ToSet(queue), puc, epoch)
    requires |ext| <= |puc| && forall d | 0 <= d < |ext| :: !(ext[d] <= e)
    ensures forall v | v in queue :: v < |ext| && (puc[v] == epoch <==> v in MinAbove(ext, live, e))
    ensures forall v | v in MinAbove(ext, live, e) :: v in queue
    ensures |lower| == |ext| && (forall v | 0 <= v < |ext| :: |ext| !in lower[v])
    ensures LiveHasse(ext, live, lower) && live == Range(|ext|) && |ext| > 0
      && forall c | 0 <= c < |ext| :: ext[c] <= ext[0]
  {
    var deq := ToSet(queue);
    forall v | v in queue ensures v < |ext| && (puc[v] == epoch <==> v in MinAbove(ext, live, e)) {
      assert v in deq;
      ChildlessAreMinimal(ext, live, lower, upper, e, deq, v);
    }
    forall v | v in MinAbove(ext, live, e) ensures v in queue {
      ChildlessAreMinimal(ext, live, lower, upper, e, deq, v);
    }
  }

  /** A set that contains none of the others goes to the bottom of the diagram. */
  lemma BottomRooted(ext: seq<set<nat>>, live: set<nat>, lower: seq<set<nat>>, e: set<nat>, lower': seq<set<nat>>,
                     upper': seq<set<nat>>)
    requires LiveHasse(ext, live, lower) && live == Range(|ext|) && |ext| > 0
      && (forall c | 0 <= c < |ext| :: ext[c] <= ext[0]) && e <= ext[0]
    requires forall d | 0 <= d < |ext| :: !(ext[d] <= e)
    requires |lower'| == |ext| + 1 && Mirrored(lower', upper')
    requires forall v | 0 <= v < |lower'| ::
        lower'[v] == (lower + [{}])[v] + (if v in MinAbove(ext, live, e) then {|ext|} else {})
    ensures Rooted(ext + [e], live + {|ext|}, lower', upper')
  {
    forall c ensures c !in MaxBelow(ext, live, e) {
      if c in live && c < |ext| { assert !(ext[c] <= e); }
    }
    InsertHasse(ext, live, lower, e);
    var up := MinAbove(ext, live, e);
    assert |ext| !in up;
    var goal := Inserted(lower, {}, up);
    hide MinAbove;
    forall v | 0 <= v < |goal| ensures lower'[v] == goal[v] {}
    assert lower' == goal;
  }
}
