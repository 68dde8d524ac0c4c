/** The code of the workers: the critical sections on the shared queue, each of which is a
    step of the state machine, and the recursion between them. */
module Enumeration {
  import opened FormalContext
  import opened CloseByOne
  import opened JobQueue

  datatype Popped = GotJob(node: Node) | MustWait | Over

  /** The fields the lock protects. */
  class SharedQueue {
    var jobs: seq<Job>
    var busy: int
    var published: nat
    ghost var taken: seq<nat>

    /** The queue is empty and nobody works. */
    constructor ()
      ensures jobs == [] && busy == 0 && published == 0 && taken == []
    {
      jobs, busy, published, taken := [], 0, 0, [];
    }

    /** The state, given what the workers are doing. */
    ghost function View(workers: seq<Worker>): State
      reads this
    {
      State(jobs, published, taken, busy, workers)
    }

    /** The step s -> s' of the state machine was taken. */
    ghost predicate Stepped(ctx: Context, s: State, step: Step)
      reads this
    {
      Enabled(ctx, s, step) && View(After(ctx, s, step).workers) == After(ctx, s, step)
    }

    method Push(node: Node, ghost ctx: Context, ghost workers: seq<Worker>, ghost step: Step)
      requires step.Publish? && Enabled(ctx, View(workers), step) && node == workers[step.w].mode.child.value
      modifies this
      ensures Stepped(ctx, old(View(workers)), step)
    {
      jobs := jobs + [Job(published, node)];
      published := published + 1;
    }

    /** One turn of the loop in which a worker asks for a job: it gets the job published
        last, has to wait, or learns that all is over. */
    method Pop(ghost ctx: Context, ghost workers: seq<Worker>, ghost w: nat) returns (r: Popped, ghost step: Step)
      requires w < |workers| && workers[w].mode.Fetching?
      modifies this
      ensures step.w == w && Stepped(ctx, old(View(workers)), step)
      ensures match r
        case GotJob(node) => step.Take? && After(ctx, old(View(workers)), step).workers[w].mode == Working([node], None)
        case MustWait => step.Sleep?
        case Over => step.Finish?
    {
      if |jobs| > 0 {
        var job := jobs[|jobs| - 1];
        jobs := jobs[..|jobs| - 1];
        busy := busy + 1;
        taken := taken + [job.id];
        return GotJob(job.node), Take(w);
      }
      if busy == 0 {
        return Over, Finish(w);
      }
      return MustWait, Sleep(w);
    }

    /** The job is done; whether the sleeping workers have to be woken. */
    method JobDone(ghost ctx: Context, ghost workers: seq<Worker>, ghost w: nat) returns (broadcast: bool)
      requires Enabled(ctx, View(workers), Done(w))
      modifies this
      ensures Stepped(ctx, old(View(workers)), Done(w))
      ensures broadcast <==> busy == 0 && jobs == []
    {
      busy := busy - 1;
      broadcast := busy == 0 && |jobs| == 0;
    }
  }

  /** The jobs published since, and what was recorded since, add up to the node. */
  ghost predicate Accounts(ctx: Context, nd: Node, out: seq<Found>, out': seq<Found>, jobs: seq<Node>,
                           jobs': seq<Node>, x: set<nat>) {
    CountOf(out', x) + WeightOf(ctx, jobs', x) == CountOf(out, x) + WeightOf(ctx, jobs, x) + Weight(ctx, nd, x)
  }

  ghost predicate Truthful(ctx: Context, out: seq<Found>) {
    forall i | 0 <= i < |out| :: out[i].intent == ctx.Intent(out[i].extent)
  }

  // ---- the worker's own steps ----

  /** What a worker holds and has recorded, and the jobs it published. */
  datatype Local = Local(worker: Worker, jobs: seq<Node>)

  datatype Move = Trying | Publishing | Descending | Returning

  ghost predicate CanMove(ctx: Context, l: Local, m: Move) {
    var mode := l.worker.mode;
    && mode.Working?
    && match m
       case Trying => mode.child.None? && mode.frames != [] && 0 <= Top(mode).last + 1 < |ctx.cols|
       case Publishing => mode.child.Some?
       case Descending => mode.child.Some?
       case Returning => mode.child.None? && mode.frames != [] && Top(mode).last + 1 >= |ctx.cols|
  }

  ghost function Move1(ctx: Context, l: Local, m: Move): Local
    requires CanMove(ctx, l, m)
  {
    var mode := l.worker.mode;
    match m
    case Trying => l.(worker := Tried(ctx, l.worker))
    case Publishing => Local(l.worker.(mode := Working(mode.frames, None)), l.jobs + [mode.child.value])
    case Descending => l.(worker := l.worker.(mode := Working(mode.frames + [mode.child.value], None)))
    case Returning => l.(worker := l.worker.(mode := Working(Under(mode), None)))
  }

  /** The step of the state machine that a move of worker w is. */
  ghost function StepOf(w: nat, m: Move, woken: set<nat>): Step {
    match m
    case Trying => Try(w)
    case Publishing => Publish(w, woken)
    case Descending => Descend(w)
    case Returning => Return(w)
  }

  /** In every state in which the worker is like that, the move is an enabled step with the
      same outcome for the worker and for the queue. */
  lemma MoveIsStep(ctx: Context, s: State, w: nat, l: Local, m: Move, woken: set<nat>)
    requires w < |s.workers| && s.workers[w] == l.worker && CanMove(ctx, l, m) && MaySignal(s, woken)
    ensures var step, l' := StepOf(w, m, woken), Move1(ctx, l, m);
      && Enabled(ctx, s, step) && w < |After(ctx, s, step).workers| && After(ctx, s, step).workers[w] == l'.worker
      && l.jobs <= l'.jobs && Nodes(After(ctx, s, step).queue) == Nodes(s.queue) + l'.jobs[|l.jobs|..]
  {
    hide ChildAt;
    var s' := After(ctx, s, StepOf(w, m, woken));
    if m.Publishing? {
      assert Nodes(s'.queue) == Nodes(s.queue) + [l.worker.mode.child.value];
    } else {
      assert s'.queue == s.queue;
    }
  }

  /** The moves lead from l to l'. */
  ghost predicate Leads(ctx: Context, l: Local, ms: seq<Move>, l': Local)
    decreases |ms|
  {
    if ms == [] then l' == l else CanMove(ctx, l, ms[0]) && Leads(ctx, Move1(ctx, l, ms[0]), ms[1..], l')
  }

  lemma {:induction false} LeadsOn(ctx: Context, l: Local, ms: seq<Move>, l': Local, ms': seq<Move>, l'': Local)
    requires Leads(ctx, l, ms, l') && Leads(ctx, l', ms', l'')
    ensures Leads(ctx, l, ms + ms', l'')
    decreases |ms|
  {
    hide CanMove, Move1;
    if ms == [] {
      assert ms + ms' == ms';
    } else {
      LeadsOn(ctx, Move1(ctx, l, ms[0]), ms[1..], l', ms', l'');
      assert (ms + ms')[1..] == ms[1..] + ms';
    }
  }

  lemma OneMove(ctx: Context, l: Local, m: Move)
    requires CanMove(ctx, l, m)
    ensures Leads(ctx, l, [m], Move1(ctx, l, m))
  {
    assert [m][1..] == [];
    assert Leads(ctx, Move1(ctx, l, m), [], Move1(ctx, l, m));
  }

  /** The worker inside the recursion, with nd innermost. */
  ghost function At(under: seq<Node>, nd: Node, child: Option<Node>, out: seq<Found>, jobs: seq<Node>): Local {
    Local(Worker(Working(under + [nd], child), out), jobs)
  }

  ghost function Out(under: seq<Node>, out: seq<Found>, jobs: seq<Node>): Local {
    Local(Worker(Working(under, None), out), jobs)
  }

  lemma TryMove(ctx: Context, under: seq<Node>, nd: Node, i: nat, out: seq<Found>, jobs: seq<Node>)
    requires nd.last + 1 == i < |ctx.cols|
    ensures var child := ChildAt(ctx, nd, i);
      Leads(ctx, At(under, nd, None, out, jobs), [Trying],
            At(under, Rest(nd, i), child, if child.Some? then out + [Found(child.value.extent,
                child.value.intent)] else out, jobs))
  {
    hide ChildAt;
    var l := At(under, nd, None, out, jobs);
    assert Under(l.worker.mode) == under && Top(l.worker.mode) == nd;
    OneMove(ctx, l, Trying);
  }

  lemma PublishMove(ctx: Context, under: seq<Node>, nd: Node, c: Node, out: seq<Found>, jobs: seq<Node>)
    ensures Leads(ctx, At(under, nd, Some(c), out, jobs), [Publishing], At(under, nd, None, out, jobs + [c]))
  {
    OneMove(ctx, At(under, nd, Some(c), out, jobs), Publishing);
  }

  lemma DescendMove(ctx: Context, under: seq<Node>, nd: Node, c: Node, out: seq<Found>, jobs: seq<Node>)
    ensures Leads(ctx, At(under, nd, Some(c), out, jobs), [Descending], At(under + [nd], c, None, out, jobs))
  {
    OneMove(ctx, At(under, nd, Some(c), out, jobs), Descending);
  }

  lemma ReturnMove(ctx: Context, under: seq<Node>, nd: Node, out: seq<Found>, jobs: seq<Node>)
    requires nd.last + 1 >= |ctx.cols|
    ensures Leads(ctx, At(under, nd, None, out, jobs), [Returning], Out(under, out, jobs))
  {
    var l := At(under, nd, None, out, jobs);
    assert Under(l.worker.mode) == under && Top(l.worker.mode) == nd;
    OneMove(ctx, l, Returning);
  }

  /** The moves go on with attribute i: no child, a child published, or a child done. */
  lemma TraceNone(ctx: Context, l: Local, moves: seq<Move>, under: seq<Node>, left: Node, i: nat, out: seq<Found>,
                  jobs: seq<Node>)
    requires Leads(ctx, l, moves, At(under, left, None, out, jobs)) && left.last + 1 == i < |ctx.cols|
      && ChildAt(ctx, left, i).None?
    ensures Leads(ctx, l, moves + [Trying], At(under, Rest(left, i), None, out, jobs))
  {
    TryMove(ctx, under, left, i, out, jobs);
    hide *;
    LeadsOn(ctx, l, moves, At(under, left, None, out, jobs), [Trying], At(under, Rest(left, i), None, out, jobs));
  }

  lemma TraceChild(ctx: Context, l: Local, moves: seq<Move>, under: seq<Node>, left: Node, i: nat, c: Node,
                   out: seq<Found>, jobs: seq<Node>)
    requires Leads(ctx, l, moves, At(under, left, None, out, jobs)) && left.last + 1 == i < |ctx.cols|
      && ChildAt(ctx, left, i) == Some(c)
    ensures Leads(ctx, l, moves + [Trying], At(under, Rest(left, i), Some(c), out + [Found(c.extent, c.intent)], jobs))
  {
    TryMove(ctx, under, left, i, out, jobs);
    hide *;
    LeadsOn(ctx, l, moves, At(under, left, None, out, jobs), [Trying],
            At(under, Rest(left, i), Some(c), out + [Found(c.extent, c.intent)], jobs));
  }

  lemma TracePublished(ctx: Context, l: Local, moves: seq<Move>, under: seq<Node>, nd: Node, c: Node, out: seq<Found>,
                       jobs: seq<Node>)
    requires Leads(ctx, l, moves, At(under, nd, Some(c), out, jobs))
    ensures Leads(ctx, l, moves + [Publishing], At(under, nd, None, out, jobs + [c]))
  {
    PublishMove(ctx, under, nd, c, out, jobs);
    hide *;
    LeadsOn(ctx, l, moves, At(under, nd, Some(c), out, jobs), [Publishing], At(under, nd, None, out, jobs + [c]));
  }

  lemma TraceDescended(ctx: Context, l: Local, moves: seq<Move>, under: seq<Node>, nd: Node, c: Node, out: seq<Found>,
                       jobs: seq<Node>,
                       more: seq<Move>, out': seq<Found>, jobs': seq<Node>)
    requires Leads(ctx, l, moves, At(under, nd, Some(c), out, jobs))
    requires Leads(ctx, At(under + [nd], c, None, out, jobs), more, Out(under + [nd], out', jobs'))
    ensures Leads(ctx, l, moves + [Descending] + more, At(under, nd, None, out', jobs'))
  {
    DescendMove(ctx, under, nd, c, out, jobs);
    hide Leads;
    LeadsOn(ctx, l, moves, At(under, nd, Some(c), out, jobs), [Descending], At(under + [nd], c, None, out, jobs));
    LeadsOn(ctx, l, moves + [Descending], At(under + [nd], c, None, out, jobs), more, At(under, nd, None, out', jobs'));
  }

  lemma TraceReturned(ctx: Context, l: Local, moves: seq<Move>, under: seq<Node>, nd: Node, out: seq<Found>,
                      jobs: seq<Node>)
    requires Leads(ctx, l, moves, At(under, nd, None, out, jobs)) && nd.last + 1 >= |ctx.cols|
    ensures Leads(ctx, l, moves + [Returning], Out(under, out, jobs))
  {
    ReturnMove(ctx, under, nd, out, jobs);
    hide *;
    LeadsOn(ctx, l, moves, At(under, nd, None, out, jobs), [Returning], Out(under, out, jobs));
  }

  lemma NoMoves(ctx: Context, l: Local)
    ensures Leads(ctx, l, [], l)
  {}

  /** The recursion of one worker.  `publish` is decided by how long the queue looks at the
      time, which other workers change: it is left open.  The run is a sequence of steps of
      the state machine, from the node on top of the nodes `under` to those alone. */
  method EnumJob(ctx: Context, nd: Node, jobs: seq<Node>, out: seq<Found>, ghost under: seq<Node>)
      returns (jobs': seq<Node>, out': seq<Found>, ghost moves: seq<Move>)
    requires ctx.Valid() && NodeOk(ctx, nd) && Truthful(ctx, out) && AllOk(ctx, jobs)
    ensures Truthful(ctx, out') && AllOk(ctx, jobs')
    ensures forall x: set<nat> :: Accounts(ctx, nd, out, out', jobs, jobs', x)
    ensures Leads(ctx, At(under, nd, None, out, jobs), moves, Out(under, out', jobs'))
    decreases |ctx.cols| - nd.last
  {
    ghost var l := At(under, nd, None, out, jobs);
    hide NodeOk, Weight, Context.Valid, ChildAt, Leads, At, Out;
    jobs', out', moves := jobs, out, [];
    LastInRange(ctx, nd);
    NoMoves(ctx, l);
    ghost var left := nd;
    for i := nd.last + 1 to |ctx.cols|
      invariant left == Rest(nd, i - 1) && NodeOk(ctx, left)
      invariant Truthful(ctx, out') && AllOk(ctx, jobs')
      invariant forall x: set<nat> :: Balance(ctx, out', jobs', left, x) == Balance(ctx, out, jobs, nd, x)
      invariant Leads(ctx, l, moves, At(under, left, None, out', jobs'))
    {
      var child := TryAttribute(ctx, nd, i);
      SameChild(ctx, nd, i - 1, i);
      Splits(ctx, left, child, i);
      ghost var out0, jobs0, left0 := out', jobs', left;
      left := Rest(nd, i);
      if child.Some? {
        var c := child.value;
        TraceChild(ctx, l, moves, under, left0, i, c, out', jobs');
        moves, out' := moves + [Trying], out' + [Found(c.extent, c.intent)];
        var publish: bool := *;
        if publish {
          TracePublished(ctx, l, moves, under, left, c, out', jobs');
          moves, jobs' := moves + [Publishing], jobs' + [c];
          Published(ctx, out0, jobs0, left0, left, c);
        } else {
          ghost var out1, jobs1, more := out', jobs', [];
          jobs', out', more := EnumJob(ctx, c, jobs', out', under + [left]);
          TraceDescended(ctx, l, moves, under, left, c, out1, jobs1, more, out', jobs');
          moves := moves + [Descending] + more;
          Descended(ctx, out0, out', jobs0, jobs', left0, left, c);
        }
      } else {
        TraceNone(ctx, l, moves, under, left0, i, out', jobs');
        moves := moves + [Trying];
        forall x: set<nat> ensures Balance(ctx, out', jobs', left, x) == Balance(ctx, out0, jobs0, left0, x) {
          assert Weight(ctx, left0, x) == Weight(ctx, left, x);
        }
      }
    }
    TraceReturned(ctx, l, moves, under, left, out', jobs');
    moves := moves + [Returning];
    forall x: set<nat> ensures Accounts(ctx, nd, out, out', jobs, jobs', x) {
      NothingLeft(ctx, left, x);
      assert Balance(ctx, out', jobs', left, x) == Balance(ctx, out, jobs, nd, x);
    }
  }

  /** What is recorded, published and left to be done, for one set. */
  ghost function Balance(ctx: Context, out: seq<Found>, jobs: seq<Node>, left: Node, x: set<nat>): nat {
    CountOf(out, x) + WeightOf(ctx, jobs, x) + Weight(ctx, left, x)
  }

  /** left splits into rest, the child and what is below the child. */
  ghost predicate SplitInto(ctx: Context, left: Node, rest: Node, c: Node, x: set<nat>) {
    Weight(ctx, left, x) == Weight(ctx, rest, x) + (if x == c.extent then 1 else 0) + Weight(ctx, c, x)
  }

  lemma Published(ctx: Context, out: seq<Found>, jobs: seq<Node>, left: Node, rest: Node, c: Node)
    requires forall x: set<nat> :: SplitInto(ctx, left, rest, c, x)
    ensures forall x: set<nat> ::
      Balance(ctx, out + [Found(c.extent, c.intent)], jobs + [c], rest, x) == Balance(ctx, out, jobs, left, x)
  {
    hide Weight;
    forall x: set<nat>
      ensures Balance(ctx, out + [Found(c.extent, c.intent)], jobs + [c], rest, x) == Balance(ctx, out, jobs, left, x)
    {
      assert SplitInto(ctx, left, rest, c, x);
      CountAppend(out, Found(c.extent, c.intent), x);
      WeightAppend(ctx, jobs, c, x);
    }
  }

  lemma Descended(ctx: Context, out: seq<Found>, out': seq<Found>, jobs: seq<Node>, jobs': seq<Node>, left: Node,
                  rest: Node, c: Node)
    requires forall x: set<nat> :: SplitInto(ctx, left, rest, c, x)
    requires forall x: set<nat> :: Accounts(ctx, c, out + [Found(c.extent, c.intent)], out', jobs, jobs', x)
    ensures forall x: set<nat> :: Balance(ctx, out', jobs', rest, x) == Balance(ctx, out, jobs, left, x)
  {
    hide Weight;
    forall x: set<nat> ensures Balance(ctx, out', jobs', rest, x) == Balance(ctx, out, jobs, left, x) {
      assert SplitInto(ctx, left, rest, c, x)
        && Accounts(ctx, c, out + [Found(c.extent, c.intent)], out', jobs, jobs', x);
      CountAppend(out, Found(c.extent, c.intent), x);
    }
  }

  lemma LastInRange(ctx: Context, nd: Node)
    requires NodeOk(ctx, nd)
    ensures -1 <= nd.last < |ctx.cols| && Rest(nd, nd.last) == nd
  {}

  lemma SameChild(ctx: Context, nd: Node, k: int, i: nat)
    requires i < |ctx.cols|
    ensures ChildAt(ctx, Rest(nd, k), i) == ChildAt(ctx, nd, i)
  {}

  lemma Splits(ctx: Context, left: Node, child: Option<Node>, i: nat)
    requires ctx.Valid() && NodeOk(ctx, left) && left.last + 1 == i < |ctx.cols| && child == ChildAt(ctx, left, i)
    ensures NodeOk(ctx, Rest(left, i))
    ensures child.Some? ==>
      NodeOk(ctx, child.value) && child.value.last == i && child.value.intent == ctx.Intent(child.value.extent)
    ensures forall x: set<nat> ::
      if child.Some? then SplitInto(ctx, left, Rest(left, i), child.value, x)
        else Weight(ctx, left, x) == Weight(ctx, Rest(left, i), x)
  {
    ChildFacts(ctx, left, i);
    hide Weight, NodeOk, ChildAt, Context.Valid;
    forall x: set<nat>
      ensures if child.Some? then SplitInto(ctx, left, Rest(left, i), child.value, x)
        else Weight(ctx, left, x) == Weight(ctx, Rest(left, i), x)
    {
      SplitsOne(ctx, left, child, i, x);
    }
  }

  lemma SplitsOne(ctx: Context, left: Node, child: Option<Node>, i: nat, x: set<nat>)
    requires ctx.Valid() && NodeOk(ctx, left) && left.last + 1 == i < |ctx.cols| && child == ChildAt(ctx, left, i)
    ensures if child.Some? then SplitInto(ctx, left, Rest(left, i), child.value, x)
      else Weight(ctx, left, x) == Weight(ctx, Rest(left, i), x)
  {
    hide Weight, NodeOk, ChildAt, Context.Valid;
    RegionSplits(ctx, left, x);
  }

  lemma ChildFacts(ctx: Context, left: Node, i: nat)
    requires ctx.Valid() && NodeOk(ctx, left) && left.last + 1 == i < |ctx.cols|
    ensures NodeOk(ctx, Rest(left, i))
    ensures ChildAt(ctx, left, i).Some? ==>
      && NodeOk(ctx, ChildAt(ctx, left, i).value) && ChildAt(ctx, left, i).value.last == i
      && ChildAt(ctx, left, i).value.intent == ctx.Intent(ChildAt(ctx, left, i).value.extent)
  {
    if ChildAt(ctx, left, i).Some? { ChildOk(ctx, left, i); }
  }
}
