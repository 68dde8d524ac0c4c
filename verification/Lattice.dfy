/** The concept lattice built by inserting the column of each attribute in turn, and its
    reduced and complete labels. */
module Lattice {
  import opened FiniteSets
  import opened FormalContext
  import opened Diagram
  import opened ConceptOrders

  /** The members of the family are the intersections of the first k columns, the set of
      all objects included. */
  ghost predicate MeetsOfColumns(ctx: Context, k: nat, ext: seq<set<nat>>) {
    && (forall s: set<nat> | s <= Range(k) :: ctx.Extent(s) in ext)
    && (forall x: set<nat> | x in ext :: exists s: set<nat> :: s <= Range(k) && x == ctx.Extent(s))
  }

  lemma ColumnMeet(ctx: Context, s: set<nat>, a: nat)
    requires ctx.Valid() && s <= ctx.Attributes() && a < |ctx.cols|
    ensures ctx.cols[a] * ctx.Extent(s) == ctx.Extent(s + {a})
  {}

  /** Inserting the next column. */
  lemma MeetsOfColumnsStep(ctx: Context, k: nat, before: seq<set<nat>>, after: seq<set<nat>>)
    requires ctx.Valid() && k < |ctx.cols| && MeetsOfColumns(ctx, k, before)
    requires MeetsAdded(before, after, ctx.cols[k])
    ensures MeetsOfColumns(ctx, k + 1, after)
  {
    forall s: set<nat> | s <= Range(k + 1) ensures ctx.Extent(s) in after {
      var t := s - {k};
      assert t <= Range(k);
      if k in s {
        assert s == t + {k};
        ColumnMeet(ctx, t, k);
      } else {
        assert s == t;
        PrefixMember(before, after, ctx.Extent(s));
      }
    }
    forall x: set<nat> | x in after ensures exists s: set<nat> :: s <= Range(k + 1) && x == ctx.Extent(s) {
      if x in before {
        var s: set<nat> :| s <= Range(k) && x == ctx.Extent(s);
        assert s <= Range(k + 1);
      } else {
        var y: set<nat> :| y in before && x == ctx.cols[k] * y;
        var s: set<nat> :| s <= Range(k) && y == ctx.Extent(s);
        ColumnMeet(ctx, s, k);
        assert s + {k} <= Range(k + 1);
      }
    }
  }

  /** ext and children are the concept lattice of the context: the extents of the context,
      each once, with the covers as edges. */
  ghost predicate IsConceptLattice(ctx: Context, ext: seq<set<nat>>, children: seq<set<nat>>) {
    LatticeDiagram(ext, children) && MeetsOfColumns(ctx, |ctx.cols|, ext)
  }

  /** Each attribute labels the concept whose extent is its column, and no other. */
  ghost predicate ColumnLabels(ctx: Context, k: nat, ext: seq<set<nat>>, rintents: seq<set<nat>>) {
    && k <= |ctx.cols| && |rintents| == |ext|
    && forall c | 0 <= c < |ext| :: forall a: nat :: a in rintents[c] <==> a < k && ctx.cols[a] == ext[c]
  }

  method BuildLattice(ctx: Context) returns (co: ConceptOrder)
    requires ctx.Valid()
    ensures fresh(co) && co.Valid() && IsConceptLattice(ctx, co.extents, co.children)
    ensures ColumnLabels(ctx, |ctx.cols|, co.extents, co.rintents)
    ensures forall c | 0 <= c < co.counter :: co.intents[c] == {}
  {
    hide LatticeDiagram, MeetsOfColumns, ColumnLabels;
    co := new ConceptOrder();
    var top := co.AddConcept(ctx.Objects(), {});
    FirstConcept(ctx, co.extents, co.children, co.rintents);
    for k := 0 to |ctx.cols|
      invariant fresh(co) && co.IsLattice() && top < co.counter && co.extents[top] == ctx.Objects()
      invariant MeetsOfColumns(ctx, k, co.extents) && ColumnLabels(ctx, k, co.extents, co.rintents)
      invariant forall c | 0 <= c < co.counter :: co.intents[c] == {}
    {
      InsertColumn(ctx, co, k, top);
    }
  }

  /** Inserts the column of attribute k and labels its concept. */
  method InsertColumn(ctx: Context, co: ConceptOrder, k: nat, top: nat)
    requires ctx.Valid() && k < |ctx.cols|
    requires co.IsLattice() && top < co.counter && co.extents[top] == ctx.Objects()
    requires MeetsOfColumns(ctx, k, co.extents) && ColumnLabels(ctx, k, co.extents, co.rintents)
    requires forall c | 0 <= c < co.counter :: co.intents[c] == {}
    modifies co
    ensures co.IsLattice() && old(co.extents) <= co.extents
    ensures MeetsOfColumns(ctx, k + 1, co.extents) && ColumnLabels(ctx, k + 1, co.extents, co.rintents)
    ensures forall c | 0 <= c < co.counter :: co.intents[c] == {}
  {
    hide MeetClosed, MeetsAdded, MeetsOfColumns, ColumnLabels, Covers, LabelsKept, NewUnlabelled;
    ghost var before, labels, full := co.extents, co.rintents, co.intents;
    assert ctx.cols[k] <= ctx.Objects();
    var concept := co.AddExtent(ctx.cols[k], top);
    MeetsOfColumnsStep(ctx, k, before, co.extents);
    KeptEmpty(full, co.intents);
    LabelsStep(ctx, k, before, labels, co.extents, co.rintents, concept);
    co.rintents := co.rintents[concept := co.rintents[concept] + {k}];
  }

  lemma LabelsStep(ctx: Context, k: nat, before: seq<set<nat>>, labels: seq<set<nat>>, ext: seq<set<nat>>,
                   labels': seq<set<nat>>, concept: nat)
    requires ctx.Valid() && k < |ctx.cols| && MeetsOfColumns(ctx, k, before) && ColumnLabels(ctx, k, before, labels)
    requires before <= ext && Distinct(ext) && |labels'| == |ext| && NewUnlabelled(labels, labels')
    requires concept < |ext| && ext[concept] == ctx.cols[k]
    ensures ColumnLabels(ctx, k + 1, ext, labels'[concept := labels'[concept] + {k}])
  {
    var final := labels'[concept := labels'[concept] + {k}];
    forall c, a: nat | 0 <= c < |ext| ensures a in final[c] <==> a < k + 1 && ctx.cols[a] == ext[c] {
      if a < k {
        assert {a} <= Range(k) && ctx.Extent({a}) == ctx.cols[a];
        assert ctx.cols[a] in before;
        var i :| 0 <= i < |before| && before[i] == ctx.cols[a];
        assert ext[i] == before[i];
      }
    }
  }

  lemma KeptEmpty(before: seq<set<nat>>, after: seq<set<nat>>)
    requires LabelsKept(before, after) && forall c | 0 <= c < |before| :: before[c] == {}
    ensures forall c | 0 <= c < |after| :: after[c] == {}
  {}

  lemma FirstConcept(ctx: Context, ext: seq<set<nat>>, children: seq<set<nat>>, rintents: seq<set<nat>>)
    requires ctx.Valid() && ext == [ctx.Objects()] && children == [{}] && rintents == [{}]
    ensures LatticeDiagram(ext, children) && MeetsOfColumns(ctx, 0, ext) && ColumnLabels(ctx, 0, ext, rintents)
  {
    assert forall x: set<nat> | x in ext :: x == ext[0];
    forall x: set<nat>, y: set<nat> | x in ext && y in ext ensures x * y in ext {
      assert x * y == ext[0];
    }
    forall s: set<nat> | s <= Range(0) ensures ctx.Extent(s) in ext {
      assert ctx.Extent(s) == ext[0];
    }
    forall x: set<nat> | x in ext ensures exists s: set<nat> :: s <= Range(0) && x == ctx.Extent(s) {
      assert {} <= Range(0) && x == ctx.Extent({});
    }
  }

  // ---- reduced extents ----

  /** The objects of c that belong to no concept below it. */
  ghost predicate Reduced(ext: seq<set<nat>>, children: seq<set<nat>>, c: nat, rext: set<nat>)
    requires Covers(ext, children) && c < |ext|
  {
    forall o: nat :: o in rext <==> o in ext[c] && forall d | d in children[c] :: o !in ext[d]
  }

  method ComputeReducedExtents(co: ConceptOrder)
    requires co.Valid() && Covers(co.extents, co.children)
    modifies co`rextents
    ensures co.Valid() && |co.rextents| == co.counter
    ensures forall c | 0 <= c < co.counter :: Reduced(co.extents, co.children, c, co.rextents[c])
  {
    hide Covers;
    for c := 0 to co.counter
      invariant co.Valid() && Covers(co.extents, co.children)
      invariant forall k | 0 <= k < c :: Reduced(co.extents, co.children, k, co.rextents[k])
    {
      var re := co.extents[c];
      for d := 0 to co.counter
        invariant forall o: nat :: o in re <==>
          o in co.extents[c] && forall k | k in co.children[c] && k < d :: o !in co.extents[k]
      {
        if d in co.children[c] {
          re := re - co.extents[d];
        }
      }
      co.rextents := co.rextents[c := re];
    }
  }

  /** c is the least concept around object o. */
  ghost predicate IsObjectConcept(ext: seq<set<nat>>, o: nat, c: nat) {
    c < |ext| && o in ext[c] && forall k | 0 <= k < |ext| && o in ext[k] :: ext[c] <= ext[k]
  }

  /** In the concept lattice an object is in the reduced extent of its object concept and
      of no other: reducing loses nothing. */
  lemma ReducedExtentIsObjectConcept(ctx: Context, ext: seq<set<nat>>, children: seq<set<nat>>, o: nat, c: nat,
                                     rext: set<nat>)
    requires IsConceptLattice(ctx, ext, children) && c < |ext| && Reduced(ext, children, c, rext)
    ensures o in rext <==> IsObjectConcept(ext, o, c)
  {
    if o in rext {
      assert Lowest(ext, children, {o}, c);
      forall k | 0 <= k < |ext| && o in ext[k] ensures ext[c] <= ext[k] {
        LowestIsLeast(ext, children, {o}, c, ext[k]);
      }
    }
  }

  /** Every object has exactly one object concept, the one with extent o''. */
  lemma ObjectConceptExists(ctx: Context, ext: seq<set<nat>>, children: seq<set<nat>>, o: nat) returns (c: nat)
    requires ctx.Valid() && IsConceptLattice(ctx, ext, children) && o < |ctx.rows|
    ensures IsObjectConcept(ext, o, c) && ext[c] == ctx.Extent(ctx.rows[o])
    ensures forall d | IsObjectConcept(ext, o, d) :: d == c
  {
    var r := ctx.rows[o];
    assert r <= Range(|ctx.cols|);
    assert ctx.Extent(r) in ext;
    c :| 0 <= c < |ext| && ext[c] == ctx.Extent(r);
    forall k | 0 <= k < |ext| && o in ext[k] ensures ext[c] <= ext[k] {
      assert ext[k] in ext;
      var s: set<nat> :| s <= Range(|ctx.cols|) && ext[k] == ctx.Extent(s);
      assert s <= r;
      ExtentAntitone(ctx, s, r);
    }
  }

  // ---- complete intents ----

  /** There is a cover on the way up to a larger extent, too. */
  lemma {:induction false} CoverBelow(ext: seq<set<nat>>, c: nat, d: nat) returns (p: nat)
    requires c < |ext| && d < |ext| && ext[c] < ext[d]
    ensures p < |ext| && CoveredBy(ext, c, p) && ext[p] <= ext[d]
    decreases ext[d] - ext[c]
  {
    if k: nat :| k < |ext| && ext[c] < ext[k] < ext[d] {
      assert ext[k] - ext[c] < ext[d] - ext[c] by {
        var x :| x in ext[d] && x !in ext[k];
        assert x in ext[d] - ext[c] && x !in ext[k] - ext[c];
      }
      p := CoverBelow(ext, c, k);
    } else {
      p := d;
    }
  }

  /** lab is what concept c inherits: the labels of all concepts around it. */
  ghost predicate Inherited(ext: seq<set<nat>>, labels: seq<set<nat>>, c: nat, lab: set<nat>)
    requires c < |ext| == |labels|
  {
    forall a: nat :: a in lab <==> exists d :: 0 <= d < |ext| && ext[c] <= ext[d] && a in labels[d]
  }

  /** What the processed parents of c have handed down. */
  ghost predicate HandedDown(parents: set<nat>, done: set<nat>, full: seq<set<nat>>, lab: set<nat>)
    requires forall p | p in parents :: p < |full|
  {
    forall a: nat :: a in lab <==> exists p :: p in parents && p in done && a in full[p]
  }

  /** Own lab plus the parents' complete labels is the complete lab. */
  lemma InheritedFromParents(ext: seq<set<nat>>, children: seq<set<nat>>, parents: set<nat>, labels: seq<set<nat>>,
                             full: seq<set<nat>>, c: nat, lab: set<nat>)
    requires Distinct(ext) && Covers(ext, children) && c < |ext| == |labels| == |full|
    requires forall p: nat :: p in parents <==> p < |ext| && c in children[p]
    requires forall p | p in parents :: Inherited(ext, labels, p, full[p])
    requires HandedDown(parents, parents, full, lab)
    ensures Inherited(ext, labels, c, lab + labels[c])
  {
    forall a: nat ensures a in lab + labels[c] <==> exists d :: 0 <= d < |ext| && ext[c] <= ext[d] && a in labels[d] {
      if a in labels[c] {
        assert ext[c] <= ext[c];
      } else if a in lab {
        var p :| p in parents && a in full[p];
        assert CoveredBy(ext, p, p) || c in children[p];
        assert Inherited(ext, labels, p, full[p]);
        var d :| 0 <= d < |ext| && ext[p] <= ext[d] && a in labels[d];
        assert CoveredBy(ext, c, p);
        assert ext[c] <= ext[d];
      }
      if d :| 0 <= d < |ext| && ext[c] <= ext[d] && a in labels[d] {
        if d != c {
          assert ext[c] != ext[d];
          var p := CoverBelow(ext, c, d);
          assert p in parents && Inherited(ext, labels, p, full[p]);
          assert a in full[p];
        }
      }
    }
  }

  /** What a concept knows once the parents `done` are processed. */
  ghost predicate Informed(parents: set<nat>, done: set<nat>, full: seq<set<nat>>, lab: set<nat>, missing: int)
    requires forall p | p in parents :: p < |full|
  {
    missing == |parents - done| && HandedDown(parents, done, full, lab)
  }

  /** Child d receives the label of its parent c, other concepts are not affected. */
  lemma Receive(parents: set<nat>, done: set<nat>, full: seq<set<nat>>, lab: set<nat>, missing: int, c: nat)
    requires (forall p | p in parents :: p < |full|) && c !in done
    requires Informed(parents, done, full, lab, missing)
    ensures c in parents ==> Informed(parents, done + {c}, full, lab + full[c], missing - 1) && missing > 0
    ensures c !in parents ==> Informed(parents, done + {c}, full, lab, missing)
  {
    RemoveOne(parents, done, c);
    if c in parents {
      forall a: nat ensures a in lab + full[c] <==> exists p :: p in parents && p in done + {c} && a in full[p] {
        if a in lab {
          var p :| p in parents && p in done && a in full[p];
          assert p in done + {c};
        } else if a in full[c] {
          assert c in done + {c};
        }
      }
    }
  }

  /** Labels of concepts that are not processed do not matter yet. */
  lemma InformedElsewhere(parents: set<nat>, done: set<nat>, full: seq<set<nat>>, full': seq<set<nat>>, lab: set<nat>,
                          missing: int)
    requires (forall p | p in parents :: p < |full|) && |full'| == |full|
    requires forall p | p in done && p < |full| :: full'[p] == full[p]
    requires Informed(parents, done, full, lab, missing)
    ensures Informed(parents, done, full', lab, missing)
  {
    forall a: nat ensures a in lab <==> exists p :: p in parents && p in done && a in full'[p] {
      if a in lab {
        var p :| p in parents && p in done && a in full[p];
        assert a in full'[p];
      }
    }
  }

  ghost predicate Shape(ext: seq<set<nat>>, children: seq<set<nat>>, parents: seq<set<nat>>) {
    && Distinct(ext) && Covers(ext, children) && |parents| == |ext|
    && ParentsOk(parents)
    && (forall c: nat, p: nat | c < |ext| && p < |ext| :: p in parents[c] <==> c in children[p])
  }

  ghost predicate ParentsOk(parents: seq<set<nat>>) {
    forall c | 0 <= c < |parents| :: forall p | p in parents[c] :: p < |parents|
  }

  /** The queue holds each concept whose parents are all processed, once. */
  ghost predicate QueueOk(indegree: seq<int>, queue: seq<nat>) {
    && (forall k | 0 <= k < |queue| :: queue[k] < |indegree|)
    && NoRepeats(queue)
    && (forall c | 0 <= c < |indegree| :: c in queue <==> indegree[c] == 0)
  }

  /** Processed concepts are complete, and so are their parents. */
  ghost predicate DoneOk(ext: seq<set<nat>>, parents: seq<set<nat>>, labels: seq<set<nat>>, full: seq<set<nat>>,
                         done: set<nat>)
    requires |parents| == |labels| == |full| == |ext|
  {
    forall c | c in done :: c < |ext| && parents[c] <= done && Inherited(ext, labels, c, full[c])
  }

  /** While a concept hands its label down, the concepts below `lim` have it already. */
  ghost predicate WaitingOk(parents: seq<set<nat>>, full: seq<set<nat>>, indegree: seq<int>, done: set<nat>,
                            before: set<nat>, lim: nat)
    requires |full| == |indegree| == |parents| && ParentsOk(parents)
  {
    forall d | 0 <= d < |parents| && d !in done ::
      Informed(parents[d], if d < lim then done else before, full, full[d], indegree[d])
  }

  ghost predicate Traversal(ext: seq<set<nat>>, children: seq<set<nat>>, parents: seq<set<nat>>, labels: seq<set<nat>>,
                            full: seq<set<nat>>, indegree: seq<int>, queue: seq<nat>, done: set<nat>)
  {
    && Shape(ext, children, parents) && |labels| == |full| == |indegree| == |ext|
    && QueueOk(indegree, queue)
    && DoneOk(ext, parents, labels, full, done)
    && WaitingOk(parents, full, indegree, done, done, |ext|)
  }

  /** A concept whose parents are all processed is in the queue: when the queue is
      exhausted, every concept has been processed. */
  lemma {:induction false} AllDone(ext: seq<set<nat>>, children: seq<set<nat>>, parents: seq<set<nat>>,
                                   labels: seq<set<nat>>, full: seq<set<nat>>, indegree: seq<int>, queue: seq<nat>,
                                   universe: set<nat>, c: nat)
    requires forall k | 0 <= k < |ext| :: ext[k] <= universe
    requires Traversal(ext, children, parents, labels, full, indegree, queue, ToSet(queue)) && c < |ext|
    ensures c in queue
    decreases universe - ext[c]
  {
    forall p | p in parents[c] ensures p in queue {
      assert c in children[p] && CoveredBy(ext, c, p);
      var x :| x in ext[p] && x !in ext[c];
      assert x in universe - ext[c] && x !in universe - ext[p];
      AllDone(ext, children, parents, labels, full, indegree, queue, universe, p);
    }
    NoneMissing(parents[c], ToSet(queue));
  }

  /** The next concept of the queue is complete once its own label is added. */
  lemma Dequeue(ext: seq<set<nat>>, children: seq<set<nat>>, parents: seq<set<nat>>, labels: seq<set<nat>>,
                full: seq<set<nat>>, indegree: seq<int>, queue: seq<nat>, done: set<nat>, c: nat)
    requires Traversal(ext, children, parents, labels, full, indegree, queue, done)
    requires c < |ext| && c !in done && c in queue
    ensures DoneOk(ext, parents, labels, full[c := full[c] + labels[c]], done + {c})
    ensures WaitingOk(parents, full[c := full[c] + labels[c]], indegree, done + {c}, done, 0)
  {
    hide Inherited, HandedDown;
    var full' := full[c := full[c] + labels[c]];
    assert Informed(parents[c], done, full, full[c], indegree[c]);
    NoneMissing(parents[c], done);
    HandedByAll(parents[c], done, full, full[c]);
    InheritedFromParents(ext, children, parents[c], labels, full, c, full[c]);
    hide Informed;
    forall d | 0 <= d < |ext| && d !in done + {c}
      ensures Informed(parents[d], done, full', full'[d], indegree[d])
    {
      InformedElsewhere(parents[d], done, full, full', full[d], indegree[d]);
    }
  }

  lemma HandedByAll(parents: set<nat>, done: set<nat>, full: seq<set<nat>>, lab: set<nat>)
    requires (forall p | p in parents :: p < |full|) && parents <= done && HandedDown(parents, done, full, lab)
    ensures HandedDown(parents, parents, full, lab)
  {
    forall a: nat ensures a in lab <==> exists p :: p in parents && p in parents && a in full[p] {}
  }

  /** The situation while c hands its label down. */
  ghost predicate Handing(ext: seq<set<nat>>, children: seq<set<nat>>, parents: seq<set<nat>>, labels: seq<set<nat>>,
                          full: seq<set<nat>>, indegree: seq<int>, before: set<nat>, c: nat, lim: nat)
  {
    && Shape(ext, children, parents) && |labels| == |full| == |indegree| == |ext|
    && c < |ext| && c !in before
    && (forall k | k in before :: k < |ext| && parents[k] <= before)
    && DoneOk(ext, parents, labels, full, before + {c})
    && WaitingOk(parents, full, indegree, before + {c}, before, lim)
  }

  lemma DoneElsewhere(ext: seq<set<nat>>, parents: seq<set<nat>>, labels: seq<set<nat>>, full: seq<set<nat>>,
                      full': seq<set<nat>>, done: set<nat>)
    requires |parents| == |labels| == |full| == |full'| == |ext| && DoneOk(ext, parents, labels, full, done)
    requires forall c | c in done && c < |ext| :: full'[c] == full[c]
    ensures DoneOk(ext, parents, labels, full', done)
  {
    hide Inherited;
  }

  lemma HandTo(ext: seq<set<nat>>, children: seq<set<nat>>, parents: seq<set<nat>>, labels: seq<set<nat>>,
               full: seq<set<nat>>, indegree: seq<int>, before: set<nat>, c: nat, d: nat)
    requires Handing(ext, children, parents, labels, full, indegree, before, c, d) && d < |ext| && d in children[c]
    ensures indegree[d] > 0
    ensures Handing(ext, children, parents, labels, full[d := full[d] + full[c]], indegree[d := indegree[d] - 1],
                    before, c, d + 1)
  {
    assert CoveredBy(ext, d, c) && c in parents[d];
    assert d !in before + {c};
    var full', indegree' := full[d := full[d] + full[c]], indegree[d := indegree[d] - 1];
    assert Informed(parents[d], before, full, full[d], indegree[d]);
    Receive(parents[d], before, full, full[d], indegree[d], c);
    DoneElsewhere(ext, parents, labels, full, full', before + {c});
    hide Inherited, Informed, Covers, Distinct, DoneOk;
    forall k | 0 <= k < |ext| && k !in before + {c}
      ensures Informed(parents[k], if k < d + 1 then before + {c} else before, full', full'[k], indegree'[k])
    {
      var seen := if k < d + 1 then before + {c} else before;
      var lab := if k == d then full[d] + full[c] else full[k];
      InformedElsewhere(parents[k], seen, full, full', lab, indegree'[k]);
    }
  }

  lemma HandPast(ext: seq<set<nat>>, children: seq<set<nat>>, parents: seq<set<nat>>, labels: seq<set<nat>>,
                 full: seq<set<nat>>, indegree: seq<int>, before: set<nat>, c: nat, d: nat)
    requires Handing(ext, children, parents, labels, full, indegree, before, c, d) && d < |ext| && d !in children[c]
    ensures Handing(ext, children, parents, labels, full, indegree, before, c, d + 1)
  {
    hide Inherited, Informed, Covers, Distinct;
    if d !in before + {c} {
      Receive(parents[d], before, full, full[d], indegree[d], c);
    }
  }

  lemma TraversalSizes(ext: seq<set<nat>>, children: seq<set<nat>>, parents: seq<set<nat>>, labels: seq<set<nat>>,
                       bare: seq<set<nat>>, indegree: seq<int>, queue: seq<nat>, done: set<nat>)
    requires Traversal(ext, children, parents, labels, bare, indegree, queue, done)
    ensures |children| == |ext| == |indegree| == |bare| == |labels| == |parents| && Shape(ext, children, parents)
    ensures QueueOk(indegree, queue) && forall c | 0 <= c < |ext| :: forall d | d in children[c] :: d < |ext|
  {
    hide Inherited, Informed, Distinct, DoneOk, WaitingOk, QueueOk;
  }

  lemma NextOfQueue(queue: seq<nat>, head: nat, indegree: seq<int>)
    requires QueueOk(indegree, queue) && head < |queue|
    ensures queue[head] in queue && queue[head] < |indegree| && queue[head] !in ToSet(queue[..head])
  {}

  lemma DoneUpward(ext: seq<set<nat>>, children: seq<set<nat>>, parents: seq<set<nat>>, labels: seq<set<nat>>,
                   bare: seq<set<nat>>, indegree: seq<int>, queue: seq<nat>, done: set<nat>)
    requires Traversal(ext, children, parents, labels, bare, indegree, queue, done)
    ensures |parents| == |ext| && forall k | k in done :: k < |ext| && parents[k] <= done
  {
    hide Inherited, Informed, Distinct, Covers, WaitingOk, QueueOk;
  }

  lemma Queued(indegree: seq<int>, queue: seq<nat>, d: nat)
    requires QueueOk(indegree, queue) && d < |indegree| && indegree[d] > 0
    ensures var indegree' := indegree[d := indegree[d] - 1];
      QueueOk(indegree', if indegree'[d] == 0 then queue + [d] else queue)
  {
    assert d !in queue && forall k | 0 <= k < |queue| :: queue[k] in queue;
  }

  lemma OneFurther(queue0: seq<nat>, queue: seq<nat>, head: nat)
    requires head < |queue0| && queue0 <= queue
    ensures ToSet(queue[..head + 1]) == ToSet(queue0[..head]) + {queue0[head]}
  {
    assert queue[..head + 1] == queue0[..head] + [queue0[head]];
  }

  /** The next concept of the queue gets its own label and starts to hand it down. */
  lemma StartHanding(ext: seq<set<nat>>, children: seq<set<nat>>, parents: seq<set<nat>>, labels: seq<set<nat>>,
                     full: seq<set<nat>>, indegree: seq<int>, queue: seq<nat>, head: nat)
    requires head < |queue| && Traversal(ext, children, parents, labels, full, indegree, queue, ToSet(queue[..head]))
    ensures |children| == |ext| == |full| == |indegree| == |labels| && queue[head] < |ext| && QueueOk(indegree, queue)
    ensures var c := queue[head];
      Handing(ext, children, parents, labels, full[c := full[c] + labels[c]], indegree, ToSet(queue[..head]), c, 0)
  {
    TraversalSizes(ext, children, parents, labels, full, indegree, queue, ToSet(queue[..head]));
    NextOfQueue(queue, head, indegree);
    DoneUpward(ext, children, parents, labels, full, indegree, queue, ToSet(queue[..head]));
    hide Traversal, Shape, DoneOk, WaitingOk, QueueOk, ToSet;
    Dequeue(ext, children, parents, labels, full, indegree, queue, ToSet(queue[..head]), queue[head]);
  }

  lemma HandAndQueue(ext: seq<set<nat>>, children: seq<set<nat>>, parents: seq<set<nat>>, labels: seq<set<nat>>,
                     full: seq<set<nat>>, indegree: seq<int>, queue: seq<nat>, before: set<nat>, c: nat, d: nat)
    requires Handing(ext, children, parents, labels, full, indegree, before, c, d) && QueueOk(indegree, queue)
    requires d < |ext| && c < |children| && d in children[c]
    ensures |full| == |indegree| == |ext| && c < |ext|
    ensures var indegree' := indegree[d := indegree[d] - 1];
      && Handing(ext, children, parents, labels, full[d := full[d] + full[c]], indegree', before, c, d + 1)
      && QueueOk(indegree', if indegree'[d] == 0 then queue + [d] else queue)
  {
    HandTo(ext, children, parents, labels, full, indegree, before, c, d);
    assert |full| == |indegree| == |ext| && c < |ext|;
    hide Handing, QueueOk;
    Queued(indegree, queue, d);
  }

  lemma EndHanding(ext: seq<set<nat>>, children: seq<set<nat>>, parents: seq<set<nat>>, labels: seq<set<nat>>,
                   full: seq<set<nat>>, indegree: seq<int>, queue: seq<nat>, before: set<nat>, c: nat)
    requires Handing(ext, children, parents, labels, full, indegree, before, c, |ext|) && QueueOk(indegree, queue)
    ensures Traversal(ext, children, parents, labels, full, indegree, queue, before + {c})
  {
    hide Inherited, Informed, Distinct, Covers, QueueOk;
  }

  /** Takes the next concept from the queue, completes it and hands its intent down. */
  method VisitConcept(co: ConceptOrder, indegree0: seq<int>, queue0: seq<nat>, head: nat)
    returns (indegree: seq<int>, queue: seq<nat>)
    requires co.Valid() && head < |queue0|
    requires Traversal(co.extents, co.children, co.parents, co.rintents, co.intents, indegree0, queue0,
                       ToSet(queue0[..head]))
    modifies co`intents
    ensures co.Valid() && |queue| >= |queue0|
    ensures Traversal(co.extents, co.children, co.parents, co.rintents, co.intents, indegree, queue,
                      ToSet(queue[..head + 1]))
  {
    hide Handing, Traversal, QueueOk, ToSet;
    indegree, queue := indegree0, queue0;
    var c := queue[head];
    ghost var before := ToSet(queue0[..head]);
    StartHanding(co.extents, co.children, co.parents, co.rintents, co.intents, indegree, queue, head);
    co.intents := co.intents[c := co.intents[c] + co.rintents[c]];
    for d := 0 to co.counter
      invariant co.Valid() && QueueOk(indegree, queue) && queue0 <= queue && |indegree| == co.counter
      invariant Handing(co.extents, co.children, co.parents, co.rintents, co.intents, indegree, before, c, d)
    {
      if d in co.children[c] {
        HandAndQueue(co.extents, co.children, co.parents, co.rintents, co.intents, indegree, queue, before, c, d);
        co.intents := co.intents[d := co.intents[d] + co.intents[c]];
        indegree := indegree[d := indegree[d] - 1];
        if indegree[d] == 0 {
          queue := queue + [d];
        }
      } else {
        HandPast(co.extents, co.children, co.parents, co.rintents, co.intents, indegree, before, c, d);
      }
    }
    EndHanding(co.extents, co.children, co.parents, co.rintents, co.intents, indegree, queue, before, c);
    OneFurther(queue0, queue, head);
  }

  /** Completes the intents from the top down, counting the parents that are still
      missing.  Every concept is reached, after its parents. */
  method ComputeIntents(co: ConceptOrder, ghost universe: set<nat>)
    requires co.Valid() && Distinct(co.extents) && Covers(co.extents, co.children)
    requires forall c | 0 <= c < co.counter :: co.extents[c] <= universe && co.intents[c] == {}
    modifies co`intents
    ensures co.Valid()
    ensures forall c | 0 <= c < co.counter :: Inherited(co.extents, co.rintents, c, co.intents[c])
  {
    hide Inherited, Distinct, Covers;
    var n := co.counter;
    var indegree := [];
    for c := 0 to n
      invariant |indegree| == c && forall k | 0 <= k < c :: indegree[k] == |co.parents[k]|
    {
      indegree := indegree + [|co.parents[c]|];
    }
    var queue: seq<nat> := [];
    for c := 0 to n
      invariant (forall k | 0 <= k < |queue| :: queue[k] < c) && NoRepeats(queue)
      invariant forall k | 0 <= k < c :: k in queue <==> indegree[k] == 0
    {
      if indegree[c] == 0 { queue := queue + [c]; }
    }
    var head := 0;
    StartTraversal(co.parents, co.intents, indegree);
    assert ToSet(queue[..0]) == {};
    while head < |queue|
      invariant co.Valid() && head <= |queue|
      invariant Traversal(co.extents, co.children, co.parents, co.rintents, co.intents, indegree, queue,
                          ToSet(queue[..head]))
      decreases n - head
    {
      Pigeonhole(queue, n);
      indegree, queue := VisitConcept(co, indegree, queue, head);
      head := head + 1;
    }
    assert queue[..head] == queue;
    forall c | 0 <= c < n ensures Inherited(co.extents, co.rintents, c, co.intents[c]) {
      AllDone(co.extents, co.children, co.parents, co.rintents, co.intents, indegree, queue, universe, c);
      assert c in ToSet(queue);
    }
  }

  lemma StartTraversal(parents: seq<set<nat>>, full: seq<set<nat>>, indegree: seq<int>)
    requires ParentsOk(parents) && |full| == |indegree| == |parents|
    requires forall c | 0 <= c < |parents| :: full[c] == {} && indegree[c] == |parents[c]|
    ensures WaitingOk(parents, full, indegree, {}, {}, |parents|)
  {
    forall d | 0 <= d < |parents| ensures Informed(parents[d], {}, full, full[d], indegree[d]) {
      assert parents[d] - {} == parents[d];
    }
  }

  /** In the concept lattice, what a concept inherits is its intent. */
  lemma InheritedIsIntent(ctx: Context, ext: seq<set<nat>>, children: seq<set<nat>>, labels: seq<set<nat>>, c: nat,
                          lab: set<nat>)
    requires ctx.Valid() && IsConceptLattice(ctx, ext, children) && ColumnLabels(ctx, |ctx.cols|, ext, labels)
    requires c < |ext| && Inherited(ext, labels, c, lab)
    ensures lab == ctx.Intent(ext[c])
  {
    forall a: nat ensures a in lab <==> a in ctx.Intent(ext[c]) {
      if a in ctx.Intent(ext[c]) {
        assert {a} <= Range(|ctx.cols|) && ctx.Extent({a}) == ctx.cols[a];
        var d :| 0 <= d < |ext| && ext[d] == ctx.cols[a];
        assert ext[c] <= ext[d] && a in labels[d];
      }
    }
  }

  lemma ExtentsInside(ctx: Context, ext: seq<set<nat>>)
    requires ctx.Valid() && MeetsOfColumns(ctx, |ctx.cols|, ext)
    ensures forall c | 0 <= c < |ext| :: ext[c] <= ctx.Objects()
  {
    forall c | 0 <= c < |ext| ensures ext[c] <= ctx.Objects() {
      assert ext[c] in ext;
    }
  }

  /** The labelled concept lattice: extents, covers, reduced labels and complete intents. */
  method BuildLabelledLattice(ctx: Context) returns (co: ConceptOrder)
    requires ctx.Valid()
    ensures fresh(co) && co.Valid() && IsConceptLattice(ctx, co.extents, co.children)
    ensures ColumnLabels(ctx, |ctx.cols|, co.extents, co.rintents)
    ensures forall c | 0 <= c < co.counter :: Reduced(co.extents, co.children, c, co.rextents[c])
    ensures forall c | 0 <= c < co.counter :: co.intents[c] == ctx.Intent(co.extents[c])
  {
    co := BuildLattice(ctx);
    ExtentsInside(ctx, co.extents);
    hide MeetClosed, MeetsOfColumns, Covers, Reduced, Inherited, Distinct;
    ComputeReducedExtents(co);
    ComputeIntents(co, ctx.Objects());
    forall c | 0 <= c < co.counter ensures co.intents[c] == ctx.Intent(co.extents[c]) {
      InheritedIsIntent(ctx, co.extents, co.children, co.rintents, c, co.intents[c]);
    }
  }
}
