/** Complete extents and intents from the reduced ones: the labels are handed along the edges,
    every concept passing on what it has when all its predecessors have done so. */
module FullSets {
  import opened FiniteSets
  import opened FormalContext
  import opened AocPoset
  import opened Lattice
  import Diagram

  /** What has been handed on so far, as it is and as it would be without the labels of the
      concepts still waiting. */
  ghost predicate Ahead(labels: seq<set<nat>>, full: seq<set<nat>>, bare: seq<set<nat>>, done: set<nat>) {
    && |full| == |bare| == |labels|
    && forall c | 0 <= c < |full| :: full[c] == if c in done then bare[c] else bare[c] + labels[c]
  }

  /** Concept c is at work; its children below d have been handed what it has. */
  ghost predicate AtWork(ext: seq<set<nat>>, children: seq<set<nat>>, parents: seq<set<nat>>, labels: seq<set<nat>>,
                         full: seq<set<nat>>, bare: seq<set<nat>>, indegree: seq<int>, queue: seq<nat>,
                             before: set<nat>, c: nat, d: nat)
  {
    && QueueOk(indegree, queue) && Handing(ext, children, parents, labels, bare, indegree, before, c, d)
    && Ahead(labels, full, bare, before + {c})
  }

  lemma StartWork(ext: seq<set<nat>>, children: seq<set<nat>>, parents: seq<set<nat>>, labels: seq<set<nat>>,
                  full: seq<set<nat>>, bare: seq<set<nat>>, indegree: seq<int>, queue: seq<nat>, head: nat)
    requires head < |queue| && Traversal(ext, children, parents, labels, bare, indegree, queue, ToSet(queue[..head]))
    requires Ahead(labels, full, bare, ToSet(queue[..head]))
    ensures |children| == |ext| == |full| == |indegree| == |bare| == |labels| && queue[head] < |ext|
    ensures forall d | d in children[queue[head]] :: d < |ext|
    ensures AtWork(ext, children, parents, labels, full, bare[queue[head] := bare[queue[head]] + labels[queue[head]]],
                   indegree, queue,
                   ToSet(queue[..head]), queue[head], 0)
  {
    hide Traversal, Handing, QueueOk, ToSet;
    TraversalSizes(ext, children, parents, labels, bare, indegree, queue, ToSet(queue[..head]));
    NextOfQueue(queue, head, indegree);
    StartHanding(ext, children, parents, labels, bare, indegree, queue, head);
  }

  lemma WorkOn(ext: seq<set<nat>>, children: seq<set<nat>>, parents: seq<set<nat>>, labels: seq<set<nat>>,
               full: seq<set<nat>>, bare: seq<set<nat>>, indegree: seq<int>, queue: seq<nat>, before: set<nat>,
                   c: nat, d: nat)
    requires AtWork(ext, children, parents, labels, full, bare, indegree, queue, before, c, d) && d < |ext|
    requires c < |children| && d in children[c]
    ensures |full| == |bare| == |indegree| == |ext| && c < |ext|
    ensures var indegree' := indegree[d := indegree[d] - 1];
      AtWork(ext, children, parents, labels, full[d := full[d] + full[c]], bare[d := bare[d] + bare[c]], indegree',
             if indegree'[d] == 0 then queue + [d] else queue, before, c, d + 1)
  {
    NotDoneYet(ext, children, parents, labels, bare, indegree, before, c, d);
    HandAndQueue(ext, children, parents, labels, bare, indegree, queue, before, c, d);
    hide Handing, QueueOk;
    AheadOn(labels, full, bare, before + {c}, c, d);
  }

  lemma AheadOn(labels: seq<set<nat>>, full: seq<set<nat>>, bare: seq<set<nat>>, done: set<nat>, c: nat, d: nat)
    requires Ahead(labels, full, bare, done) && c in done && c < |full| && d < |full| && d !in done
    ensures Ahead(labels, full[d := full[d] + full[c]], bare[d := bare[d] + bare[c]], done)
  {}

  lemma WorkPast(ext: seq<set<nat>>, children: seq<set<nat>>, parents: seq<set<nat>>, labels: seq<set<nat>>,
                 full: seq<set<nat>>, bare: seq<set<nat>>, indegree: seq<int>, queue: seq<nat>, before: set<nat>,
                     c: nat, d: nat)
    requires AtWork(ext, children, parents, labels, full, bare, indegree, queue, before, c, d) && d < |ext|
    requires c < |children| && d !in children[c]
    ensures AtWork(ext, children, parents, labels, full, bare, indegree, queue, before, c, d + 1)
  {
    hide Ahead, QueueOk;
    HandPast(ext, children, parents, labels, bare, indegree, before, c, d);
    hide Handing;
  }

  lemma EndWork(ext: seq<set<nat>>, children: seq<set<nat>>, parents: seq<set<nat>>, labels: seq<set<nat>>,
                full: seq<set<nat>>, bare: seq<set<nat>>, indegree: seq<int>, queue: seq<nat>, before: set<nat>, c: nat)
    requires AtWork(ext, children, parents, labels, full, bare, indegree, queue, before, c, |ext|)
    ensures Traversal(ext, children, parents, labels, bare, indegree, queue, before + {c})
      && Ahead(labels, full, bare, before + {c})
  {
    hide Handing, QueueOk, Ahead;
    EndHanding(ext, children, parents, labels, bare, indegree, queue, before, c);
  }

  /** The next concept hands what it has to its children. */
  method HandOn(ghost ext: seq<set<nat>>, children: seq<set<nat>>, ghost parents: seq<set<nat>>,
                ghost labels: seq<set<nat>>,
                full0: seq<set<nat>>, ghost bare0: seq<set<nat>>, indegree0: seq<int>, queue0: seq<nat>, head: nat)
      returns (full: seq<set<nat>>, ghost bare: seq<set<nat>>, indegree: seq<int>, queue: seq<nat>)
    requires head < |queue0|
      && Traversal(ext, children, parents, labels, bare0, indegree0, queue0, ToSet(queue0[..head]))
    requires Ahead(labels, full0, bare0, ToSet(queue0[..head]))
    ensures |queue| >= |queue0|
      && Traversal(ext, children, parents, labels, bare, indegree, queue, ToSet(queue[..head + 1]))
    ensures Ahead(labels, full, bare, ToSet(queue[..head + 1]))
  {
    hide *;
    full, bare, indegree, queue := full0, bare0, indegree0, queue0;
    var c := queue[head];
    ghost var before := ToSet(queue0[..head]);
    StartWork(ext, children, parents, labels, full, bare, indegree, queue, head);
    bare := bare[c := bare[c] + labels[c]];
    for d := 0 to |children|
      invariant queue0 <= queue && |full| == |bare| == |indegree| == |children|
      invariant AtWork(ext, children, parents, labels, full, bare, indegree, queue, before, c, d)
    {
      if d in children[c] {
        WorkOn(ext, children, parents, labels, full, bare, indegree, queue, before, c, d);
        full, bare := full[d := full[d] + full[c]], bare[d := bare[d] + bare[c]];
        indegree := indegree[d := indegree[d] - 1];
        if indegree[d] == 0 {
          queue := queue + [d];
        }
      } else {
        WorkPast(ext, children, parents, labels, full, bare, indegree, queue, before, c, d);
      }
    }
    EndWork(ext, children, parents, labels, full, bare, indegree, queue, before, c);
    OneFurther(queue0, queue, head);
  }

  /** No child of the concept at work has handed anything on. */
  lemma NotDoneYet(ext: seq<set<nat>>, children: seq<set<nat>>, parents: seq<set<nat>>, labels: seq<set<nat>>,
                   full: seq<set<nat>>, indegree: seq<int>, before: set<nat>, c: nat, d: nat)
    requires Handing(ext, children, parents, labels, full, indegree, before, c, d) && d < |ext| && d in children[c]
    ensures d !in before + {c}
  {
    assert Diagram.CoveredBy(ext, d, c) && c in parents[d];
  }

  /** The labels of all concepts around each one, counting the parents still missing. */
  method Propagate(ghost ext: seq<set<nat>>, children: seq<set<nat>>, parents: seq<set<nat>>, labels: seq<set<nat>>,
                   ghost universe: set<nat>)
      returns (full: seq<set<nat>>)
    requires Shape(ext, children, parents) && |labels| == |ext| && forall c | 0 <= c < |ext| :: ext[c] <= universe
    ensures |full| == |ext| && forall c | 0 <= c < |ext| :: Inherited(ext, labels, c, full[c])
  {
    hide WaitingOk;
    var n := |labels|;
    full := labels;
    ghost var bare: seq<set<nat>> := seq(n, c => {});
    var indegree := [];
    for c := 0 to n
      invariant |indegree| == c && forall k | 0 <= k < c :: indegree[k] == |parents[k]|
    {
      indegree := indegree + [|parents[c]|];
    }
    var queue: seq<nat> := [];
    for c := 0 to n
      invariant (forall k | 0 <= k < |queue| :: queue[k] < c) && NoRepeats(queue)
      invariant forall k | 0 <= k < c :: k in queue <==> indegree[k] == 0
    {
      if indegree[c] == 0 { queue := queue + [c]; }
    }
    StartTraversal(parents, bare, indegree);
    assert ToSet(queue[..0]) == {};
    assert Traversal(ext, children, parents, labels, bare, indegree, queue, ToSet(queue[..0]));
    assert Ahead(labels, full, bare, ToSet(queue[..0]));
    hide Traversal, Ahead, Inherited, Shape;
    var head := 0;
    while head < |queue|
      invariant head <= |queue|
        && Traversal(ext, children, parents, labels, bare, indegree, queue, ToSet(queue[..head]))
      invariant Ahead(labels, full, bare, ToSet(queue[..head]))
      decreases n - head
    {
      QueueFits(ext, children, parents, labels, bare, indegree, queue, ToSet(queue[..head]));
      full, bare, indegree, queue := HandOn(ext, children, parents, labels, full, bare, indegree, queue, head);
      head := head + 1;
      QueueFits(ext, children, parents, labels, bare, indegree, queue, ToSet(queue[..head]));
    }
    assert queue[..head] == queue;
    AllComplete(ext, children, parents, labels, full, bare, indegree, queue, universe);
  }

  lemma QueueFits(ext: seq<set<nat>>, children: seq<set<nat>>, parents: seq<set<nat>>, labels: seq<set<nat>>,
                  full: seq<set<nat>>, indegree: seq<int>, queue: seq<nat>, done: set<nat>)
    requires Traversal(ext, children, parents, labels, full, indegree, queue, done)
    ensures |queue| <= |ext|
  {
    Pigeonhole(queue, |ext|);
  }

  lemma AllComplete(ext: seq<set<nat>>, children: seq<set<nat>>, parents: seq<set<nat>>, labels: seq<set<nat>>,
                    full: seq<set<nat>>,
                    bare: seq<set<nat>>, indegree: seq<int>, queue: seq<nat>, universe: set<nat>)
    requires forall k | 0 <= k < |ext| :: ext[k] <= universe
    requires Traversal(ext, children, parents, labels, bare, indegree, queue, ToSet(queue))
      && Ahead(labels, full, bare, ToSet(queue))
    ensures |full| == |ext| == |labels| && forall c | 0 <= c < |ext| :: Inherited(ext, labels, c, full[c])
  {
    forall c | 0 <= c < |ext| ensures Inherited(ext, labels, c, full[c]) {
      AllDone(ext, children, parents, labels, bare, indegree, queue, universe, c);
      assert c in ToSet(queue);
    }
  }

  // ---- both directions on the AOC-poset ----

  /** The order turned round. */
  ghost function Flipped(ext: seq<set<nat>>, universe: set<nat>): (r: seq<set<nat>>)
    ensures |r| == |ext| && forall c | 0 <= c < |r| :: r[c] == universe - ext[c]
  {
    seq(|ext|, c requires 0 <= c < |ext| => universe - ext[c])
  }

  lemma FlipOrder(x: set<nat>, y: set<nat>, universe: set<nat>)
    requires x <= universe && y <= universe
    ensures universe - x <= universe - y <==> y <= x
    ensures universe - x < universe - y <==> y < x
    ensures universe - x == universe - y <==> x == y
  {
    if universe - x <= universe - y {
      forall o | o in y ensures o in x {
        assert o !in universe - y;
      }
    }
    assert universe - (universe - x) == x && universe - (universe - y) == y;
  }

  lemma FlippedShape(ext: seq<set<nat>>, children: seq<set<nat>>, parents: seq<set<nat>>, universe: set<nat>)
    requires Shape(ext, children, parents) && forall c | 0 <= c < |ext| :: ext[c] <= universe
    ensures Shape(Flipped(ext, universe), parents, children)
  {
    var flip := Flipped(ext, universe);
    forall c, d | 0 <= c < |ext| && 0 <= d < |ext|
      ensures (flip[c] < flip[d] <==> ext[d] < ext[c]) && (flip[c] == flip[d] <==> ext[c] == ext[d])
    {
      FlipOrder(ext[c], ext[d], universe);
    }
    forall c: nat, p: nat | c < |ext| && p < |ext| ensures c in parents[p] <==> Diagram.CoveredBy(flip, c, p) {
      assert c in parents[p] <==> p in children[c];
      assert p in children[c] <==> Diagram.CoveredBy(ext, p, c);
      if Diagram.CoveredBy(ext, p, c) {
        forall k | 0 <= k < |flip| ensures !(flip[c] < flip[k] < flip[p]) {}
      }
      if Diagram.CoveredBy(flip, c, p) {
        forall k | 0 <= k < |ext| ensures !(ext[p] < ext[k] < ext[c]) {}
      }
    }
  }

  lemma PosetExtents(ctx: Context, ext: seq<set<nat>>, children: seq<set<nat>>, rext: seq<set<nat>>,
                     rint: seq<set<nat>>)
    requires ctx.Valid() && IsAocPoset(ctx, ext, children, rext, rint)
    ensures |children| == |rext| == |rint| == |ext|
    ensures forall c | 0 <= c < |ext| ::
        ext[c] <= ctx.Objects() && Introduces(ctx, ext[c]) && IsLabelled(ctx, ext[c], rext[c], rint[c])
  {
    forall c | 0 <= c < |ext| ensures ext[c] <= ctx.Objects() && Introduces(ctx, ext[c]) {
      assert ext[c] in ext;
    }
  }

  /** The labels of all larger concepts are the intent. */
  lemma LabelsAreIntent(ctx: Context, ext: seq<set<nat>>, children: seq<set<nat>>, rext: seq<set<nat>>,
                        rint: seq<set<nat>>, c: nat, full: set<nat>)
    requires ctx.Valid() && IsAocPoset(ctx, ext, children, rext, rint) && c < |ext| && Inherited(ext, rint, c, full)
    ensures full == ctx.Intent(ext[c])
  {
    PosetExtents(ctx, ext, children, rext, rint);
    forall a: nat ensures a in full <==> a in ctx.Intent(ext[c]) {
      if a in full {
        var d :| 0 <= d < |ext| && ext[c] <= ext[d] && a in rint[d];
        assert IsLabelled(ctx, ext[d], rext[d], rint[d]);
      }
      if a in ctx.Intent(ext[c]) {
        assert Introduces(ctx, ctx.cols[a]) && ctx.cols[a] in ext;
        var d :| 0 <= d < |ext| && ext[d] == ctx.cols[a];
        assert IsLabelled(ctx, ext[d], rext[d], rint[d]);
      }
    }
  }

  /** The labels of all smaller concepts are the extent. */
  lemma LabelsAreExtent(ctx: Context, ext: seq<set<nat>>, children: seq<set<nat>>, rext: seq<set<nat>>,
                        rint: seq<set<nat>>, c: nat, full: set<nat>)
    requires ctx.Valid() && IsAocPoset(ctx, ext, children, rext, rint) && c < |ext|
    requires |rext| == |ext| && Inherited(Flipped(ext, ctx.Objects()), rext, c, full)
    ensures full == ext[c]
  {
    PosetExtents(ctx, ext, children, rext, rint);
    hide Inherited, Context.Valid, IsAocPoset;
    forall o: nat ensures o in full <==> o in ext[c] {
      if o in full { LabelInExtent(ctx, ext, children, rext, rint, c, full, o); }
      if o in ext[c] { LabelReaches(ctx, ext, children, rext, rint, c, full, o); }
    }
  }

  lemma LabelHeld(ctx: Context, ext: seq<set<nat>>, children: seq<set<nat>>, rext: seq<set<nat>>, rint: seq<set<nat>>,
                  d: nat, o: nat)
    requires ctx.Valid() && IsAocPoset(ctx, ext, children, rext, rint) && d < |ext| && o in rext[d]
    ensures o in ext[d]
  {
    assert IsLabelled(ctx, ext[d], rext[d], rint[d]);
    assert o in ctx.Extent(ctx.rows[o]);
  }

  /** What has been handed to c belongs to it. */
  lemma LabelInExtent(ctx: Context, ext: seq<set<nat>>, children: seq<set<nat>>, rext: seq<set<nat>>,
                      rint: seq<set<nat>>, c: nat, full: set<nat>, o: nat)
    requires ctx.Valid() && IsAocPoset(ctx, ext, children, rext, rint) && c < |ext|
    requires |rext| == |ext| && Inherited(Flipped(ext, ctx.Objects()), rext, c, full) && o in full
    ensures o in ext[c]
  {
    PosetExtents(ctx, ext, children, rext, rint);
    hide Context.Valid, Context.Extent, IsAocPoset;
    var flip := Flipped(ext, ctx.Objects());
    var d :| 0 <= d < |flip| && flip[c] <= flip[d] && o in rext[d];
    FlipOrder(ext[c], ext[d], ctx.Objects());
    LabelHeld(ctx, ext, children, rext, rint, d, o);
  }

  /** Every object of c labels a concept from which it is handed to c. */
  lemma LabelReaches(ctx: Context, ext: seq<set<nat>>, children: seq<set<nat>>, rext: seq<set<nat>>,
                     rint: seq<set<nat>>, c: nat, full: set<nat>, o: nat)
    requires ctx.Valid() && IsAocPoset(ctx, ext, children, rext, rint) && c < |ext|
    requires |rext| == |ext| && Inherited(Flipped(ext, ctx.Objects()), rext, c, full) && o in ext[c]
    ensures o in full
  {
    PosetExtents(ctx, ext, children, rext, rint);
    hide Context.Valid;
    var x := ctx.Extent(ctx.rows[o]);
    HoldsRow(ctx, ext[c], o);
    assert Introduces(ctx, x) && x in ext;
    var d :| 0 <= d < |ext| && ext[d] == x;
    FlipOrder(ext[c], ext[d], ctx.Objects());
    assert IsLabelled(ctx, ext[d], rext[d], rint[d]);
  }

  lemma HoldsRow(ctx: Context, x: set<nat>, o: nat)
    requires ctx.Valid() && Introduces(ctx, x) && o in x
    ensures o < |ctx.rows| && ctx.Extent(ctx.rows[o]) <= x
  {
    if p: nat :| p < |ctx.rows| && x == ctx.Extent(ctx.rows[p]) {
      ExtentAntitone(ctx, ctx.rows[p], ctx.rows[o]);
    } else {
      var a: nat :| a < |ctx.cols| && x == ctx.cols[a];
      forall q | q in ctx.Extent(ctx.rows[o]) ensures q in ctx.cols[a] {
        assert a in ctx.rows[o];
      }
    }
  }

  /** Reduced labels lose nothing: handed down and up, they give back the complete sets. */
  method RebuildFullSets(ctx: Context, ghost ext: seq<set<nat>>, children: seq<set<nat>>, parents: seq<set<nat>>,
                         rext: seq<set<nat>>, rint: seq<set<nat>>)
      returns (extents: seq<set<nat>>, intents: seq<set<nat>>)
    requires ctx.Valid() && IsAocPoset(ctx, ext, children, rext, rint) && Shape(ext, children, parents)
    ensures extents == ext && |intents| == |ext| && forall c | 0 <= c < |ext| :: intents[c] == ctx.Intent(ext[c])
  {
    ghost var objects := ctx.Objects();
    PosetExtents(ctx, ext, children, rext, rint);
    FlippedShape(ext, children, parents, objects);
    hide IsAocPoset, Shape, Inherited, Context.Valid;
    intents := Propagate(ext, children, parents, rint, objects);
    extents := Propagate(Flipped(ext, objects), parents, children, rext, objects);
    forall c | 0 <= c < |ext| ensures intents[c] == ctx.Intent(ext[c]) && extents[c] == ext[c] {
      LabelsAreIntent(ctx, ext, children, rext, rint, c, intents[c]);
      LabelsAreExtent(ctx, ext, children, rext, rint, c, extents[c]);
    }
  }
}
