/** Depth-first marking of everything that can be reached. */
module Marking {
  import opened FiniteSets
  import opened Graphs
  import opened Reachability
  import Derivation

  ghost predicate ReachFrom(g: Graph, start: set<nat>, x: nat) {
    exists s :: s in start && Reach(g, s, x)
  }

  /** What is marked can be reached, and leads only to what is marked or still on the stack. */
  ghost predicate MarkingOk(g: Graph, start: set<nat>, marks: set<nat>, stack: seq<nat>) {
    && start <= marks <= Range(|g|) && ToSet(stack) <= marks
    && (forall x | x in marks :: ReachFrom(g, start, x))
    && forall x | x in marks && x !in stack && x < |g| :: g[x] <= marks
  }

  lemma MarkingDone(g: Graph, start: set<nat>, marks: set<nat>)
    requires MarkingOk(g, start, marks, [])
    ensures forall x :: x in marks <==> ReachFrom(g, start, x)
  {
    assert Closed(g, marks);
    forall x | ReachFrom(g, start, x) ensures x in marks {
      var s :| s in start && Reach(g, s, x);
    }
  }

  lemma ReachNext(g: Graph, start: set<nat>, v: nat, w: nat)
    requires v < |g| && w in g[v] && ReachFrom(g, start, v)
    ensures ReachFrom(g, start, w)
  {
    var s :| s in start && Reach(g, s, v);
    ReachEdge(g, v, w);
    ReachTransitive(g, s, v, w);
  }

  /** Marks the unmarked successors of v and puts them on the stack. */
  method Expand(g: seq<set<nat>>, ghost start: set<nat>, v: nat, marks0: set<nat>, stack0: seq<nat>)
      returns (marks: set<nat>, stack: seq<nat>)
    requires WellFormed(g) && v < |g| && v in marks0 && MarkingOk(g, start, marks0, stack0 + [v])
    ensures MarkingOk(g, start, marks, stack) && marks == marks0 + g[v]
    ensures |stack| <= |stack0| + |marks| - |marks0|
  {
    hide MarkingOk, Expanding, ReachFrom, Reach, WellFormed, Derivation.Below;
    marks, stack := marks0, stack0;
    ExpandStart(g, start, v, marks, stack);
    SuccessorsBelow(g, v);
    for w := 0 to |g|
      invariant marks == marks0 + Derivation.Below(g[v], w) && Expanding(g, start, v, marks, stack)
      invariant |stack| <= |stack0| + |marks| - |marks0|
    {
      MoreMarks(marks0, g[v], w, marks);
      if w in g[v] && w !in marks {
        ExpandStep(g, start, v, w, marks, stack);
        marks, stack := marks + {w}, stack + [w];
      }
    }
    ExpandDone(g, start, v, marks, stack);
  }

  lemma SuccessorsBelow(g: Graph, v: nat)
    requires WellFormed(g) && v < |g|
    ensures Derivation.Below(g[v], 0) == {} && Derivation.Below(g[v], |g|) == g[v]
  {}

  lemma MoreMarks(marks0: set<nat>, s: set<nat>, w: nat, marks: set<nat>)
    requires marks == marks0 + Derivation.Below(s, w)
    ensures w in s ==> marks + {w} == marks0 + Derivation.Below(s, w + 1)
    ensures w !in s || w in marks ==> marks == marks0 + Derivation.Below(s, w + 1)
    ensures w !in marks ==> |marks + {w}| == |marks| + 1
  {}

  /** As MarkingOk, while v is being looked at. */
  ghost predicate Expanding(g: Graph, start: set<nat>, v: nat, marks: set<nat>, stack: seq<nat>) {
    && v in marks && start <= marks <= Range(|g|) && ToSet(stack) <= marks
    && (forall x | x in marks :: ReachFrom(g, start, x))
    && forall x | x in marks && x !in stack && x != v && x < |g| :: g[x] <= marks
  }

  lemma ExpandStart(g: Graph, start: set<nat>, v: nat, marks: set<nat>, stack: seq<nat>)
    requires v in marks && MarkingOk(g, start, marks, stack + [v])
    ensures Expanding(g, start, v, marks, stack)
  {
    hide ReachFrom;
    assert forall x :: x in stack + [v] <==> x in stack || x == v;
    assert forall x | x in stack :: x in ToSet(stack + [v]);
  }

  lemma ExpandStep(g: Graph, start: set<nat>, v: nat, w: nat, marks: set<nat>, stack: seq<nat>)
    requires v < |g| && w in g[v] && w < |g| && Expanding(g, start, v, marks, stack)
    ensures Expanding(g, start, v, marks + {w}, stack + [w])
  {
    hide ReachFrom;
    ReachNext(g, start, v, w);
    assert forall x :: x in stack + [w] <==> x in stack || x == w;
  }

  lemma ExpandDone(g: Graph, start: set<nat>, v: nat, marks: set<nat>, stack: seq<nat>)
    requires v < |g| && g[v] <= marks && Expanding(g, start, v, marks, stack)
    ensures MarkingOk(g, start, marks, stack)
  {
    hide ReachFrom;
  }

  lemma MarkingStart(g: Graph, start: set<nat>, stack: seq<nat>)
    requires start <= Range(|g|) && ToSet(stack) == start
    ensures MarkingOk(g, start, start, stack)
  {
    forall x | x in start ensures x in stack && ReachFrom(g, start, x) {
      assert x in ToSet(stack) && Reach(g, x, x);
    }
  }

  lemma MarksBound(g: Graph, start: set<nat>, marks: set<nat>, stack: seq<nat>)
    requires MarkingOk(g, start, marks, stack)
    ensures |marks| <= |g| && marks <= Range(|g|) && forall x | x in stack :: x in marks && x < |g|
  {
    RangeCard(|g|);
    SubsetCard(marks, Range(|g|));
    assert forall x | x in stack :: x in ToSet(stack);
  }

  /** Everything that can be reached from the start, the start included. */
  method MarkFrom(g: seq<set<nat>>, start: set<nat>, stack0: seq<nat>) returns (marks: set<nat>)
    requires WellFormed(g) && start <= Range(|g|) && ToSet(stack0) == start
    ensures forall x :: x in marks <==> ReachFrom(g, start, x)
    ensures marks <= Range(|g|)
  {
    marks := start;
    var stack := stack0;
    MarkingStart(g, start, stack);
    hide MarkingOk, ReachFrom, WellFormed;
    while stack != []
      invariant MarkingOk(g, start, marks, stack)
      decreases |g| - |marks|, |stack|
    {
      marks, stack := Turn(g, start, marks, stack);
    }
    MarkingDone(g, start, marks);
    MarksBound(g, start, marks, stack);
  }

  /** Takes a vertex off the stack. */
  method Turn(g: seq<set<nat>>, ghost start: set<nat>, marks0: set<nat>, stack0: seq<nat>)
      returns (marks: set<nat>, stack: seq<nat>)
    requires WellFormed(g) && stack0 != [] && MarkingOk(g, start, marks0, stack0)
    ensures MarkingOk(g, start, marks, stack) && |marks| <= |g|
    ensures |marks0| < |marks| || (|marks0| == |marks| && |stack| < |stack0|)
  {
    hide MarkingOk, ReachFrom, WellFormed;
    MarksBound(g, start, marks0, stack0);
    var v := stack0[|stack0| - 1];
    assert v in stack0 && stack0 == stack0[..|stack0| - 1] + [v];
    marks, stack := Expand(g, start, v, marks0, stack0[..|stack0| - 1]);
    SubsetCard(marks0, marks);
    MarksBound(g, start, marks, stack);
  }

  /** The same from one vertex, but it stops as soon as all targets are marked. */
  method MarkUntil(g: seq<set<nat>>, src: nat, targets: set<nat>) returns (marks: set<nat>)
    requires WellFormed(g) && src < |g|
    ensures forall t | t in targets :: t in marks <==> Reach(g, src, t)
  {
    marks := {src};
    var stack := [src];
    MarkingStart(g, {src}, stack);
    hide MarkingOk, ReachFrom, WellFormed, Reach;
    while stack != [] && |targets - marks| > 0
      invariant MarkingOk(g, {src}, marks, stack)
      decreases |g| - |marks|, |stack|
    {
      marks, stack := Turn(g, {src}, marks, stack);
    }
    if stack == [] { MarkingDone(g, {src}, marks); }
    assert |targets - marks| == 0 ==> targets - marks == {};
    forall t | t in targets ensures t in marks <==> Reach(g, src, t) {
      FromOne(g, src, t);
      MarkedReached(g, {src}, marks, stack, t);
      assert t in targets - marks || t in marks;
    }
  }

  lemma FromOne(g: Graph, src: nat, t: nat)
    ensures ReachFrom(g, {src}, t) <==> Reach(g, src, t)
  {
    hide Reach;
  }

  lemma MarkedReached(g: Graph, start: set<nat>, marks: set<nat>, stack: seq<nat>, t: nat)
    requires MarkingOk(g, start, marks, stack)
    ensures t in marks ==> ReachFrom(g, start, t)
  {}
}
