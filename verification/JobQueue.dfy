/** The workers of the Close-by-One enumeration and the queue they share, as a state machine.
    A critical section of the lock is one step; between sections workers interleave freely.
    Which children are published and which are descended into is left open, and a sleeping
    worker may wake up without reason. */
module JobQueue {
  import opened FiniteSets
  import opened FormalContext
  import opened CloseByOne

  datatype Found = Found(extent: set<nat>, intent: set<nat>)

  datatype Job = Job(id: nat, node: Node)

  /** A worker asks for a job, sleeps, works, or is finished.  While it works it holds what
      is left of the nodes of its recursion, outermost first, and a child just found that is
      neither published nor entered yet. */
  datatype Mode =
    | Fetching
    | Asleep
    | Working(frames: seq<Node>, child: Option<Node>)
    | Finished

  datatype Worker = Worker(mode: Mode, out: seq<Found>)

  datatype State = State(queue: seq<Job>, published: nat, taken: seq<nat>, busy: int, workers: seq<Worker>)

  datatype Step =
    | Take(w: nat)
    | Sleep(w: nat)
    | Finish(w: nat)
    | Wake(w: nat)
    | Try(w: nat)
    | Publish(w: nat, woken: set<nat>)
    | Descend(w: nat)
    | Return(w: nat)
    | Done(w: nat)

  ghost predicate IsAsleep(s: State, w: nat) {
    w < |s.workers| && s.workers[w].mode.Asleep?
  }

  /** The worker goes on to another mode. */
  function Moved(workers: seq<Worker>, w: nat, mode: Mode): seq<Worker>
    requires w < |workers|
  {
    workers[w := workers[w].(mode := mode)]
  }

  /** The sleeping workers of a set ask again. */
  ghost function Woken(workers: seq<Worker>, who: set<nat>): (r: seq<Worker>)
    ensures |r| == |workers|
    ensures forall i: nat | i < |r| ::
      r[i] == if i in who && workers[i].mode.Asleep? then workers[i].(mode := Fetching) else workers[i]
  {
    seq(|workers|, i requires 0 <= i < |workers| =>
      if i in who && workers[i].mode.Asleep? then workers[i].(mode := Fetching) else workers[i])
  }

  /** Signalling wakes at least one sleeping worker if there is one. */
  ghost predicate MaySignal(s: State, woken: set<nat>) {
    && (forall w | w in woken :: IsAsleep(s, w))
    && ((exists w :: IsAsleep(s, w)) ==> woken != {})
  }

  ghost predicate Enabled(ctx: Context, s: State, step: Step) {
    && step.w < |s.workers|
    && var mode := s.workers[step.w].mode;
      match step
      case Take(_) => mode.Fetching? && s.queue != []
      case Sleep(_) => mode.Fetching? && s.queue == [] && s.busy != 0
      case Finish(_) => mode.Fetching? && s.queue == [] && s.busy == 0
      case Wake(_) => mode.Asleep?
      case Try(_) => mode.Working? && mode.child.None? && mode.frames != [] && 0 <= Top(mode).last + 1 < |ctx.cols|
      case Publish(_, woken) => mode.Working? && mode.child.Some? && MaySignal(s, woken)
      case Descend(_) => mode.Working? && mode.child.Some?
      case Return(_) => mode.Working? && mode.child.None? && mode.frames != [] && Top(mode).last + 1 >= |ctx.cols|
      case Done(_) => mode.Working? && mode.child.None? && mode.frames == []
  }

  function Top(mode: Mode): Node
    requires mode.Working? && mode.frames != []
  {
    mode.frames[|mode.frames| - 1]
  }

  function Under(mode: Mode): seq<Node>
    requires mode.Working? && mode.frames != []
  {
    mode.frames[..|mode.frames| - 1]
  }

  ghost function After(ctx: Context, s: State, step: Step): State
    requires Enabled(ctx, s, step)
  {
    var w, mode := step.w, s.workers[step.w].mode;
    match step
    case Take(_) =>
      var job := s.queue[|s.queue| - 1];
      s.(queue := s.queue[..|s.queue| - 1], taken := s.taken + [job.id], busy := s.busy + 1,
         workers := Moved(s.workers, w, Working([job.node], None)))
    case Sleep(_) => s.(workers := Moved(s.workers, w, Asleep))
    case Finish(_) => s.(workers := Moved(Woken(s.workers, Range(|s.workers|)), w, Finished))
    case Wake(_) => s.(workers := Moved(s.workers, w, Fetching))
    case Try(_) => s.(workers := s.workers[w := Tried(ctx, s.workers[w])])
    case Publish(_, woken) =>
      s.(queue := s.queue + [Job(s.published, mode.child.value)], published := s.published + 1,
         workers := Moved(Woken(s.workers, woken), w, Working(mode.frames, None)))
    case Descend(_) => s.(workers := Moved(s.workers, w, Working(mode.frames + [mode.child.value], None)))
    case Return(_) => s.(workers := Moved(s.workers, w, Working(Under(mode), None)))
    case Done(_) =>
      var workers := if s.busy - 1 == 0 && s.queue == [] then Woken(s.workers, Range(|s.workers|)) else s.workers;
      s.(busy := s.busy - 1, workers := Moved(workers, w, Fetching))
  }

  /** One attribute of the innermost node; a child is recorded at once. */
  ghost function Tried(ctx: Context, worker: Worker): Worker
    requires worker.mode.Working? && worker.mode.frames != [] && 0 <= Top(worker.mode).last + 1 < |ctx.cols|
  {
    var nd := Top(worker.mode);
    var i := nd.last + 1;
    var child := ChildAt(ctx, nd, i);
    Worker(Working(Under(worker.mode) + [Rest(nd, i)], child),
           match child case None => worker.out case Some(c) => worker.out + [Found(c.extent, c.intent)])
  }

  ghost predicate Init(ctx: Context, s: State) {
    && s.queue == [Job(0, Root(ctx))] && s.published == 1 && s.taken == [] && s.busy == 0
    && |s.workers| >= 1 && forall w | 0 <= w < |s.workers| :: s.workers[w] == Worker(Fetching, [])
  }

  // ---- sums over workers ----

  ghost function Sum(workers: seq<Worker>, f: Worker -> nat): nat {
    if workers == [] then 0 else Sum(workers[..|workers| - 1], f) + f(workers[|workers| - 1])
  }

  lemma {:induction false} SumUpdate(workers: seq<Worker>, w: nat, worker: Worker, f: Worker -> nat)
    requires w < |workers|
    ensures Sum(workers[w := worker], f) + f(workers[w]) == Sum(workers, f) + f(worker)
  {
    var rest := workers[..|workers| - 1];
    if w == |workers| - 1 {
      assert workers[w := worker][..|workers| - 1] == rest;
    } else {
      assert workers[w := worker][..|workers| - 1] == rest[w := worker];
      SumUpdate(rest, w, worker, f);
    }
  }

  /** Waking workers changes no sum that does not tell sleeping from asking. */
  lemma {:induction false} SumWoken(workers: seq<Worker>, who: set<nat>, f: Worker -> nat)
    requires forall out :: f(Worker(Asleep, out)) == f(Worker(Fetching, out))
    ensures Sum(Woken(workers, who), f) == Sum(workers, f)
  {
    if workers != [] {
      var rest, last := workers[..|workers| - 1], workers[|workers| - 1];
      SumWoken(rest, who, f);
      assert Woken(workers, who)[..|workers| - 1] == Woken(rest, who);
      assert last.mode.Asleep? ==> last == Worker(Asleep, last.out);
    }
  }

  lemma {:induction false} SumBounds(workers: seq<Worker>, w: nat, f: Worker -> nat)
    requires w < |workers|
    ensures f(workers[w]) <= Sum(workers, f)
  {
    if w < |workers| - 1 { SumBounds(workers[..|workers| - 1], w, f); }
  }

  lemma {:induction false} SumZero(workers: seq<Worker>, f: Worker -> nat)
    requires forall w | 0 <= w < |workers| :: f(workers[w]) == 0
    ensures Sum(workers, f) == 0
  {
    if workers != [] { SumZero(workers[..|workers| - 1], f); }
  }

  lemma {:induction false} SumPositive(workers: seq<Worker>, f: Worker -> nat) returns (w: nat)
    requires Sum(workers, f) > 0
    ensures w < |workers| && f(workers[w]) > 0
  {
    if f(workers[|workers| - 1]) > 0 {
      w := |workers| - 1;
    } else {
      w := SumPositive(workers[..|workers| - 1], f);
    }
  }

  // ---- what every step keeps ----

  ghost predicate AllOk(ctx: Context, nodes: seq<Node>) {
    forall i | 0 <= i < |nodes| :: NodeOk(ctx, nodes[i])
  }

  /** What a worker holds is sound: its nodes, and the intents it has recorded. */
  ghost predicate WorkerOk(ctx: Context, worker: Worker) {
    && (forall i | 0 <= i < |worker.out| :: worker.out[i].intent == ctx.Intent(worker.out[i].extent))
    && (worker.mode.Working? ==> AllOk(ctx, worker.mode.frames))
    && (worker.mode.Working? && worker.mode.child.Some? ==> NodeOk(ctx, worker.mode.child.value))
  }

  ghost predicate NodesOk(ctx: Context, s: State) {
    && (forall i | 0 <= i < |s.queue| :: NodeOk(ctx, s.queue[i].node))
    && (forall w | 0 <= w < |s.workers| :: WorkerOk(ctx, s.workers[w]))
  }

  lemma TriedOk(ctx: Context, worker: Worker)
    requires ctx.Valid() && WorkerOk(ctx, worker)
    requires worker.mode.Working? && worker.mode.frames != [] && 0 <= Top(worker.mode).last + 1 < |ctx.cols|
    ensures WorkerOk(ctx, Tried(ctx, worker))
  {
    hide Context.Valid, ChildAt, Context.Intent;
    var nd := Top(worker.mode);
    var i := nd.last + 1;
    if ChildAt(ctx, nd, i).Some? { ChildOk(ctx, nd, i); }
  }

  lemma NodesStep(ctx: Context, s: State, step: Step)
    requires ctx.Valid() && NodesOk(ctx, s) && Enabled(ctx, s, step)
    ensures NodesOk(ctx, After(ctx, s, step))
  {
    hide NodeOk, Context.Valid, MaySignal, Woken, Tried;
    if step.Try? { TriedOk(ctx, s.workers[step.w]); }
    hide ChildAt;
    assert WorkerOk(ctx, s.workers[step.w]);
  }

  /** The counter counts the workers that hold a job. */
  ghost function Busy(): Worker -> nat {
    (worker: Worker) => if worker.mode.Working? then 1 else 0
  }

  ghost predicate BusyOk(s: State) {
    s.busy == Sum(s.workers, Busy())
  }

  /** The workers a step wakes. */
  ghost function WokenBy(s: State, step: Step): set<nat> {
    match step
    case Finish(_) => Range(|s.workers|)
    case Publish(_, woken) => woken
    case Done(_) => if s.busy - 1 == 0 && s.queue == [] then Range(|s.workers|) else {}
    case _ => {}
  }

  /** Every step wakes some workers and moves one. */
  lemma StepShape(ctx: Context, s: State, step: Step)
    requires Enabled(ctx, s, step)
    ensures var s' := After(ctx, s, step);
      && |s'.workers| == |s.workers|
      && s'.workers == Woken(s.workers, WokenBy(s, step))[step.w := s'.workers[step.w]]
      && Woken(s.workers, WokenBy(s, step))[step.w] == s.workers[step.w]
  {
    hide ChildAt;
    assert Woken(s.workers, {}) == s.workers;
  }

  /** A step changes a sum by what it changes of the worker that takes it. */
  lemma SumStep(ctx: Context, s: State, step: Step, f: Worker -> nat)
    requires Enabled(ctx, s, step) && forall out :: f(Worker(Asleep, out)) == f(Worker(Fetching, out))
    ensures var s' := After(ctx, s, step);
      |s'.workers| == |s.workers| &&
      Sum(s'.workers, f) + f(s.workers[step.w]) == Sum(s.workers, f) + f(s'.workers[step.w])
  {
    var s' := After(ctx, s, step);
    StepShape(ctx, s, step);
    SumWoken(s.workers, WokenBy(s, step), f);
    SumUpdate(Woken(s.workers, WokenBy(s, step)), step.w, s'.workers[step.w], f);
  }

  lemma BusyStep(ctx: Context, s: State, step: Step)
    requires BusyOk(s) && Enabled(ctx, s, step)
    ensures BusyOk(After(ctx, s, step))
  {
    SumStep(ctx, s, step, Busy());
  }

  /** Each published job is in the queue or was taken, once. */
  ghost function Ids(queue: seq<Job>): seq<nat> {
    seq(|queue|, i requires 0 <= i < |queue| => queue[i].id)
  }

  ghost predicate IdsOk(s: State) {
    && NoRepeats(s.taken + Ids(s.queue)) && |s.taken| + |s.queue| == s.published
    && forall i | 0 <= i < |s.taken + Ids(s.queue)| :: (s.taken + Ids(s.queue))[i] < s.published
  }

  lemma IdsStep(ctx: Context, s: State, step: Step)
    requires IdsOk(s) && Enabled(ctx, s, step)
    ensures IdsOk(After(ctx, s, step))
  {
    var s' := After(ctx, s, step);
    if step.Take? {
      TakenLast(s.taken, s.queue);
    } else if step.Publish? {
      assert s'.taken + Ids(s'.queue) == s.taken + Ids(s.queue) + [s.published];
    } else {
      assert s'.taken == s.taken && s'.queue == s.queue && s'.published == s.published;
    }
  }

  /** Moving the last job of the queue to the end of the taken ones reorders them. */
  lemma TakenLast(taken: seq<nat>, queue: seq<Job>)
    requires queue != [] && NoRepeats(taken + Ids(queue))
    ensures var k := |queue| - 1;
      var l := taken + [queue[k].id] + Ids(queue[..k]);
      NoRepeats(l) && |l| == |taken| + |queue| && forall i | 0 <= i < |l| :: l[i] in taken + Ids(queue)
  {
    var k := |queue| - 1;
    var l, m := taken + [queue[k].id] + Ids(queue[..k]), taken + Ids(queue);
    forall i | 0 <= i < |l| ensures l[i] == m[if i < |taken| then i else if i == |taken| then |m| - 1 else i - 1] {}
  }

  // ---- conservation ----

  ghost function CountOf(out: seq<Found>, x: set<nat>): nat {
    if out == [] then 0 else CountOf(out[..|out| - 1], x) + (if out[|out| - 1].extent == x then 1 else 0)
  }

  ghost function WeightOf(ctx: Context, nodes: seq<Node>, x: set<nat>): nat {
    if nodes == [] then 0 else WeightOf(ctx, nodes[..|nodes| - 1], x) + Weight(ctx, nodes[|nodes| - 1], x)
  }

  ghost function Nodes(queue: seq<Job>): seq<Node> {
    seq(|queue|, i requires 0 <= i < |queue| => queue[i].node)
  }

  ghost function WeightOfChild(ctx: Context, child: Option<Node>, x: set<nat>): nat {
    match child case None => 0 case Some(c) => Weight(ctx, c, x)
  }

  /** How often x was recorded by the worker or is still to be found in what it holds. */
  ghost function HeldBy(ctx: Context, worker: Worker, x: set<nat>): nat {
    CountOf(worker.out, x) +
    (if worker.mode.Working? then WeightOf(ctx, worker.mode.frames, x) + WeightOfChild(ctx, worker.mode.child,
        x) else 0)
  }

  ghost function Held(ctx: Context, x: set<nat>): Worker -> nat {
    (worker: Worker) => HeldBy(ctx, worker, x)
  }

  /** Every set is recorded or pending as often as it was below the root: once if it is
      closed and not the top, else never. */
  ghost predicate Conserved(ctx: Context, s: State, x: set<nat>) {
    Sum(s.workers, Held(ctx, x)) + WeightOf(ctx, Nodes(s.queue), x) == Weight(ctx, Root(ctx), x)
  }

  lemma WeightAppend(ctx: Context, nodes: seq<Node>, nd: Node, x: set<nat>)
    ensures WeightOf(ctx, nodes + [nd], x) == WeightOf(ctx, nodes, x) + Weight(ctx, nd, x)
  {
    assert (nodes + [nd])[..|nodes|] == nodes;
  }

  lemma CountAppend(out: seq<Found>, f: Found, x: set<nat>)
    ensures CountOf(out + [f], x) == CountOf(out, x) + (if f.extent == x then 1 else 0)
  {
    assert (out + [f])[..|out|] == out;
  }

  /** Trying an attribute neither loses nor doubles anything. */
  lemma TriedConserves(ctx: Context, worker: Worker, x: set<nat>)
    requires ctx.Valid() && WorkerOk(ctx, worker)
    requires worker.mode.Working? && worker.mode.frames != [] && worker.mode.child.None?
    requires 0 <= Top(worker.mode).last + 1 < |ctx.cols|
    ensures HeldBy(ctx, Tried(ctx, worker), x) == HeldBy(ctx, worker, x)
  {
    hide Weight, NodeOk, Context.Valid;
    var nd := Top(worker.mode);
    var i := nd.last + 1;
    RegionSplits(ctx, nd, x);
    var child := ChildAt(ctx, nd, i);
    hide ChildAt;
    assert worker.mode.frames == Under(worker.mode) + [nd];
    WeightAppend(ctx, Under(worker.mode), nd, x);
    WeightAppend(ctx, Under(worker.mode), Rest(nd, i), x);
    if child.Some? {
      CountAppend(worker.out, Found(child.value.extent, child.value.intent), x);
    }
  }

  lemma TakeConserves(ctx: Context, s: State, step: Step, x: set<nat>)
    requires step.Take? && Enabled(ctx, s, step)
    ensures var s' := After(ctx, s, step);
      HeldBy(ctx, s'.workers[step.w], x) + WeightOf(ctx, Nodes(s'.queue), x)
        == HeldBy(ctx, s.workers[step.w], x) + WeightOf(ctx, Nodes(s.queue), x)
  {
    hide Weight;
    var k := |s.queue| - 1;
    assert Nodes(s.queue) == Nodes(s.queue[..k]) + [s.queue[k].node];
    WeightAppend(ctx, Nodes(s.queue[..k]), s.queue[k].node, x);
    WeightAppend(ctx, [], s.queue[k].node, x);
    assert [] + [s.queue[k].node] == [s.queue[k].node];
  }

  lemma PublishConserves(ctx: Context, s: State, step: Step, x: set<nat>)
    requires step.Publish? && Enabled(ctx, s, step)
    ensures var s' := After(ctx, s, step);
      HeldBy(ctx, s'.workers[step.w], x) + WeightOf(ctx, Nodes(s'.queue), x)
        == HeldBy(ctx, s.workers[step.w], x) + WeightOf(ctx, Nodes(s.queue), x)
  {
    hide Weight;
    var c := s.workers[step.w].mode.child.value;
    assert Nodes(After(ctx, s, step).queue) == Nodes(s.queue) + [c];
    WeightAppend(ctx, Nodes(s.queue), c, x);
  }

  lemma FramesConserve(ctx: Context, s: State, step: Step, x: set<nat>)
    requires ctx.Valid() && (step.Descend? || step.Return?) && Enabled(ctx, s, step) && WorkerOk(ctx, s.workers[step.w])
    ensures HeldBy(ctx, After(ctx, s, step).workers[step.w], x) == HeldBy(ctx, s.workers[step.w], x)
  {
    hide Weight, NodeOk, Context.Valid;
    var mode := s.workers[step.w].mode;
    if step.Descend? {
      WeightAppend(ctx, mode.frames, mode.child.value, x);
    } else {
      assert mode.frames == Under(mode) + [Top(mode)];
      WeightAppend(ctx, Under(mode), Top(mode), x);
      NothingLeft(ctx, Top(mode), x);
    }
  }

  lemma ConservedStep(ctx: Context, s: State, step: Step, x: set<nat>)
    requires ctx.Valid() && NodesOk(ctx, s) && Enabled(ctx, s, step) && Conserved(ctx, s, x)
    ensures Conserved(ctx, After(ctx, s, step), x)
  {
    hide Weight, Context.Valid, ChildAt, WorkerOk, WeightOf;
    SumStep(ctx, s, step, Held(ctx, x));
    match step
    case Take(_) => TakeConserves(ctx, s, step, x);
    case Try(_) => TriedConserves(ctx, s.workers[step.w], x);
    case Publish(_, _) => PublishConserves(ctx, s, step, x);
    case Descend(_) => FramesConserve(ctx, s, step, x);
    case Return(_) => FramesConserve(ctx, s, step, x);
    case _ => NoWorkConserves(ctx, s, step, x);
  }

  lemma NoWorkConserves(ctx: Context, s: State, step: Step, x: set<nat>)
    requires Enabled(ctx, s, step) && (step.Sleep? || step.Finish? || step.Wake? || step.Done?)
    ensures HeldBy(ctx, After(ctx, s, step).workers[step.w], x) == HeldBy(ctx, s.workers[step.w], x)
    ensures After(ctx, s, step).queue == s.queue
  {
    hide Weight;
  }

  lemma NothingLeft(ctx: Context, nd: Node, x: set<nat>)
    requires ctx.Valid() && NodeOk(ctx, nd) && nd.last + 1 >= |ctx.cols|
    ensures Weight(ctx, nd, x) == 0
  {
    RegionEnds(ctx, nd, x);
  }

  // ---- sleeping and leaving ----

  /** Once a worker has left, the queue is empty and nobody can publish again. */
  ghost predicate Quiet(s: State) {
    forall w | 0 <= w < |s.workers| && s.workers[w].mode.Finished? :: s.queue == [] && s.busy == 0
  }

  lemma QuietStep(ctx: Context, s: State, step: Step)
    requires BusyOk(s) && Quiet(s) && Enabled(ctx, s, step)
    ensures Quiet(After(ctx, s, step))
  {
    hide ChildAt;
    StepShape(ctx, s, step);
    if s.workers[step.w].mode.Working? { SumBounds(s.workers, step.w, Busy()); }
  }

  /** While anybody is unfinished, somebody is awake. */
  ghost predicate SomeoneAwake(s: State) {
    (exists w :: 0 <= w < |s.workers| && !s.workers[w].mode.Finished?) ==>
      exists w :: 0 <= w < |s.workers| && IsActive(s.workers[w].mode)
  }

  ghost predicate IsActive(mode: Mode) {
    mode.Fetching? || mode.Working?
  }

  lemma AwakeStep(ctx: Context, s: State, step: Step)
    requires BusyOk(s) && SomeoneAwake(s) && Enabled(ctx, s, step)
    ensures SomeoneAwake(After(ctx, s, step))
  {
    hide ChildAt;
    var s' := After(ctx, s, step);
    StepShape(ctx, s, step);
    if step.Sleep? {
      var v := SumPositive(s.workers, Busy());
      assert s'.workers[v] == s.workers[v] && IsActive(s'.workers[v].mode);
    } else if step.Finish? {
      if v :| 0 <= v < |s'.workers| && !s'.workers[v].mode.Finished? {
        if s.workers[v].mode.Working? { SumBounds(s.workers, v, Busy()); }
        assert IsActive(s'.workers[v].mode);
      }
    } else {
      assert IsActive(s'.workers[step.w].mode);
    }
  }

  /** Nobody sleeps when there is neither a job nor anybody who could publish one. */
  ghost predicate NobodyForgotten(s: State) {
    s.busy == 0 && s.queue == [] ==> forall w | 0 <= w < |s.workers| :: !s.workers[w].mode.Asleep?
  }

  lemma ForgottenStep(ctx: Context, s: State, step: Step)
    requires BusyOk(s) && NobodyForgotten(s) && Enabled(ctx, s, step)
    ensures NobodyForgotten(After(ctx, s, step))
  {
    hide ChildAt;
    StepShape(ctx, s, step);
    if s.workers[step.w].mode.Working? { SumBounds(s.workers, step.w, Busy()); }
  }

  // ---- all runs ----

  ghost predicate Inv(ctx: Context, s: State) {
    && NodesOk(ctx, s) && BusyOk(s) && IdsOk(s) && Quiet(s) && SomeoneAwake(s) && NobodyForgotten(s)
    && |s.workers| >= 1 && forall x: set<nat> :: Conserved(ctx, s, x)
  }

  lemma InitInv(ctx: Context, s: State)
    requires ctx.Valid() && Init(ctx, s)
    ensures Inv(ctx, s)
  {
    RootOk(ctx);
    hide NodeOk, Weight;
    SumZero(s.workers, Busy());
    assert IsActive(s.workers[0].mode);
    forall x: set<nat> ensures Conserved(ctx, s, x) {
      SumZero(s.workers, Held(ctx, x));
      assert Nodes(s.queue) == [] + [Root(ctx)];
      WeightAppend(ctx, [], Root(ctx), x);
    }
  }

  lemma StepInv(ctx: Context, s: State, step: Step)
    requires ctx.Valid() && Inv(ctx, s) && Enabled(ctx, s, step)
    ensures Inv(ctx, After(ctx, s, step))
  {
    NodesStep(ctx, s, step);
    BusyStep(ctx, s, step);
    IdsStep(ctx, s, step);
    QuietStep(ctx, s, step);
    AwakeStep(ctx, s, step);
    ForgottenStep(ctx, s, step);
    StepShape(ctx, s, step);
    forall x: set<nat> ensures Conserved(ctx, After(ctx, s, step), x) {
      ConservedStep(ctx, s, step, x);
    }
  }

  ghost predicate IsRun(ctx: Context, states: seq<State>, steps: seq<Step>) {
    && |states| == |steps| + 1 && Init(ctx, states[0])
    && forall k | 0 <= k < |steps| ::
      Enabled(ctx, states[k], steps[k]) && states[k + 1] == After(ctx, states[k], steps[k])
  }

  lemma {:induction false} RunInv(ctx: Context, states: seq<State>, steps: seq<Step>, k: nat)
    requires ctx.Valid() && IsRun(ctx, states, steps) && k < |states|
    ensures Inv(ctx, states[k])
  {
    hide Inv, Enabled, After;
    if k == 0 {
      InitInv(ctx, states[0]);
    } else {
      RunInv(ctx, states, steps, k - 1);
      StepInv(ctx, states[k - 1], steps[k - 1]);
    }
  }

  ghost predicate AllFinished(s: State) {
    forall w | 0 <= w < |s.workers| :: s.workers[w].mode.Finished?
  }

  /** How often the workers together recorded x. */
  ghost function Recorded(s: State, x: set<nat>): nat {
    Sum(s.workers, (worker: Worker) => CountOf(worker.out, x))
  }

  lemma {:induction false} SumSame(workers: seq<Worker>, f: Worker -> nat, g: Worker -> nat)
    requires forall w | 0 <= w < |workers| :: f(workers[w]) == g(workers[w])
    ensures Sum(workers, f) == Sum(workers, g)
  {
    if workers != [] { SumSame(workers[..|workers| - 1], f, g); }
  }

  /** Whatever the interleaving and the choices: when all workers have left, every closed set
      other than the top was recorded exactly once, nothing else was, and the recorded
      intents are right. */
  lemma EachClosedSetOnce(ctx: Context, states: seq<State>, steps: seq<Step>)
    requires ctx.Valid() && IsRun(ctx, states, steps) && AllFinished(states[|steps|])
    ensures var s := states[|steps|];
      && (forall x: set<nat> :: Recorded(s, x) == if IsClosed(ctx, x) && x != ctx.Objects() then 1 else 0)
      && (forall w, i | 0 <= w < |s.workers| && 0 <= i < |s.workers[w].out| ::
            s.workers[w].out[i].intent == ctx.Intent(s.workers[w].out[i].extent))
  {
    var s := states[|steps|];
    RunInv(ctx, states, steps, |steps|);
    RootOk(ctx);
    forall x: set<nat> ensures Recorded(s, x) == if IsClosed(ctx, x) && x != ctx.Objects() then 1 else 0 {
      assert Conserved(ctx, s, x);
      assert s.workers[0].mode.Finished?;
      SumSame(s.workers, Held(ctx, x), (worker: Worker) => CountOf(worker.out, x));
      RegionEnds(ctx, Root(ctx), x);
    }
    forall w, i | 0 <= w < |s.workers| && 0 <= i < |s.workers[w].out|
      ensures s.workers[w].out[i].intent == ctx.Intent(s.workers[w].out[i].extent)
    {
      assert WorkerOk(ctx, s.workers[w]);
    }
  }

  /** No state of a run is stuck before all workers have left, spurious wake-ups aside. */
  lemma NeverStuck(ctx: Context, s: State) returns (step: Step)
    requires ctx.Valid() && Inv(ctx, s) && !AllFinished(s)
    ensures Enabled(ctx, s, step) && !step.Wake?
  {
    var w: nat :| w < |s.workers| && IsActive(s.workers[w].mode);
    var mode := s.workers[w].mode;
    assert WorkerOk(ctx, s.workers[w]);
    if mode.Fetching? {
      step := if s.queue != [] then Take(w) else if s.busy != 0 then Sleep(w) else Finish(w);
    } else if mode.child.Some? {
      step := Descend(w);
    } else if mode.frames == [] {
      step := Done(w);
    } else {
      step := if Top(mode).last + 1 < |ctx.cols| then Try(w) else Return(w);
    }
  }

  // ---- termination ----

  /** The steps that a node still costs its worker and those who take what it publishes. */
  ghost function Cost(ctx: Context, nd: Node): nat
    decreases |ctx.cols| - nd.last
  {
    if nd.last < -1 || nd.last + 1 >= |ctx.cols| then 1
    else
      var i := nd.last + 1;
      1 + Cost(ctx, Rest(nd, i)) + match ChildAt(ctx, nd, i) case None => 0 case Some(c) => Cost(ctx, c) + 3
  }

  ghost function CostOf(ctx: Context, nodes: seq<Node>): nat {
    if nodes == [] then 0 else CostOf(ctx, nodes[..|nodes| - 1]) + Cost(ctx, nodes[|nodes| - 1])
  }

  ghost function QueueCost(ctx: Context, queue: seq<Job>): nat {
    if queue == [] then 0 else QueueCost(ctx, queue[..|queue| - 1]) + Cost(ctx, queue[|queue| - 1].node) + 2
  }

  ghost function WorkerCost(ctx: Context, worker: Worker): nat {
    if !worker.mode.Working? then 0
    else 1 + CostOf(ctx, worker.mode.frames) + match worker.mode.child case None => 0 case Some(c) => Cost(ctx, c) + 3
  }

  ghost function CostTo(ctx: Context): Worker -> nat {
    (worker: Worker) => WorkerCost(ctx, worker)
  }

  ghost function Remaining(ctx: Context, s: State): nat {
    Sum(s.workers, CostTo(ctx)) + QueueCost(ctx, s.queue)
  }

  ghost function Unfinished(): Worker -> nat {
    (worker: Worker) => if worker.mode.Finished? then 0 else 1
  }

  ghost function Asking(): Worker -> nat {
    (worker: Worker) => if worker.mode.Fetching? then 1 else 0
  }

  lemma CostAppend(ctx: Context, nodes: seq<Node>, nd: Node)
    ensures CostOf(ctx, nodes + [nd]) == CostOf(ctx, nodes) + Cost(ctx, nd)
  {
    assert (nodes + [nd])[..|nodes|] == nodes;
  }

  lemma TriedCosts(ctx: Context, worker: Worker)
    requires worker.mode.Working? && worker.mode.frames != [] && worker.mode.child.None?
    requires 0 <= Top(worker.mode).last + 1 < |ctx.cols|
    ensures WorkerCost(ctx, Tried(ctx, worker)) < WorkerCost(ctx, worker)
  {
    var nd := Top(worker.mode);
    assert worker.mode.frames == Under(worker.mode) + [nd];
    CostAppend(ctx, Under(worker.mode), nd);
    CostAppend(ctx, Under(worker.mode), Rest(nd, nd.last + 1));
  }

  lemma CostPositive(ctx: Context, nd: Node)
    ensures Cost(ctx, nd) >= 1
  {}

  /** What remains, of the worker that takes the step and in the queue. */
  ghost function LocalCost(ctx: Context, s: State, w: nat): nat
    requires w < |s.workers|
  {
    WorkerCost(ctx, s.workers[w]) + QueueCost(ctx, s.queue)
  }

  lemma CostOfOne(ctx: Context, nd: Node)
    ensures CostOf(ctx, [nd]) == Cost(ctx, nd)
  {
    hide Cost;
    CostAppend(ctx, [], nd);
    assert [] + [nd] == [nd];
  }

  lemma QueueCostAppend(ctx: Context, queue: seq<Job>, job: Job)
    ensures QueueCost(ctx, queue + [job]) == QueueCost(ctx, queue) + Cost(ctx, job.node) + 2
  {
    hide Cost;
    assert (queue + [job])[..|queue|] == queue;
  }

  lemma TakeEnds(ctx: Context, s: State, step: Step)
    requires Enabled(ctx, s, step) && step.Take?
    ensures LocalCost(ctx, After(ctx, s, step), step.w) < LocalCost(ctx, s, step.w)
  {
    hide ChildAt, Cost, CostOf, QueueCost;
    var rest, job := s.queue[..|s.queue| - 1], s.queue[|s.queue| - 1];
    assert s.queue == rest + [job];
    QueueCostAppend(ctx, rest, job);
    CostOfOne(ctx, job.node);
  }

  lemma PublishEnds(ctx: Context, s: State, step: Step)
    requires Enabled(ctx, s, step) && step.Publish?
    ensures LocalCost(ctx, After(ctx, s, step), step.w) < LocalCost(ctx, s, step.w)
  {
    hide ChildAt, Cost, CostOf, QueueCost;
    QueueCostAppend(ctx, s.queue, Job(s.published, s.workers[step.w].mode.child.value));
  }

  lemma TryEnds(ctx: Context, s: State, step: Step)
    requires Enabled(ctx, s, step) && step.Try?
    ensures LocalCost(ctx, After(ctx, s, step), step.w) < LocalCost(ctx, s, step.w)
  {
    hide ChildAt, Cost, CostOf, QueueCost, WorkerCost, Tried;
    TriedCosts(ctx, s.workers[step.w]);
  }

  lemma FramesEnd(ctx: Context, s: State, step: Step)
    requires Enabled(ctx, s, step) && (step.Descend? || step.Return?)
    ensures LocalCost(ctx, After(ctx, s, step), step.w) < LocalCost(ctx, s, step.w)
  {
    hide ChildAt, Cost, CostOf, QueueCost;
    var mode := s.workers[step.w].mode;
    if step.Descend? {
      CostAppend(ctx, mode.frames, mode.child.value);
    } else {
      assert mode.frames == Under(mode) + [Top(mode)];
      CostAppend(ctx, Under(mode), Top(mode));
      CostPositive(ctx, Top(mode));
    }
  }

  lemma OtherStepEnds(ctx: Context, s: State, step: Step)
    requires Enabled(ctx, s, step) && (step.Sleep? || step.Finish? || step.Wake? || step.Done?)
    ensures LocalCost(ctx, After(ctx, s, step), step.w) == LocalCost(ctx, s, step.w) - (if step.Done? then 1 else 0)
  {
    hide ChildAt, Cost, QueueCost;
  }

  /** Working steps use up what remains. */
  lemma WorkEnds(ctx: Context, s: State, step: Step)
    requires Enabled(ctx, s, step)
    ensures Remaining(ctx, After(ctx, s, step)) <= Remaining(ctx, s)
    ensures if step.Sleep? || step.Finish? || step.Wake? then Remaining(ctx, After(ctx, s, step)) == Remaining(ctx, s)
            else Remaining(ctx, After(ctx, s, step)) < Remaining(ctx, s)
  {
    SumStep(ctx, s, step, CostTo(ctx));
    hide After, Enabled, Cost, CostOf, WorkerCost, QueueCost;
    match step
    case Take(_) => TakeEnds(ctx, s, step);
    case Publish(_, _) => PublishEnds(ctx, s, step);
    case Try(_) => TryEnds(ctx, s, step);
    case Descend(_) => FramesEnd(ctx, s, step);
    case Return(_) => FramesEnd(ctx, s, step);
    case _ => OtherStepEnds(ctx, s, step);
  }

  /** Every step but a spurious wake-up brings the end nearer: less work remains, or as much
      with fewer workers left, or as many of them with fewer asking. */
  lemma StepEnds(ctx: Context, s: State, step: Step)
    requires Enabled(ctx, s, step) && !step.Wake?
    ensures var s' := After(ctx, s, step);
      || Remaining(ctx, s') < Remaining(ctx, s)
      || (Remaining(ctx, s') == Remaining(ctx, s) && Sum(s'.workers, Unfinished()) < Sum(s.workers, Unfinished()))
      || (Remaining(ctx, s') == Remaining(ctx, s) && Sum(s'.workers, Unfinished()) == Sum(s.workers, Unfinished())
          && Sum(s'.workers, Asking()) < Sum(s.workers, Asking()))
  {
    hide ChildAt, Cost, Remaining;
    WorkEnds(ctx, s, step);
    SumStep(ctx, s, step, Unfinished());
    if step.Sleep? { SumUpdate(s.workers, step.w, After(ctx, s, step).workers[step.w], Asking()); }
  }

  lemma WakeAsks(ctx: Context, s: State, step: Step)
    requires Enabled(ctx, s, step) && step.Wake?
    ensures var s' := After(ctx, s, step);
      && Remaining(ctx, s') == Remaining(ctx, s) && Sum(s'.workers, Unfinished()) == Sum(s.workers, Unfinished())
      && Sum(s'.workers, Asking()) == Sum(s.workers, Asking()) + 1
  {
    hide ChildAt, Cost, Remaining;
    WorkEnds(ctx, s, step);
    SumStep(ctx, s, step, Unfinished());
    SumUpdate(s.workers, step.w, After(ctx, s, step).workers[step.w], Asking());
  }

  lemma {:induction false} SumAtMost(workers: seq<Worker>, f: Worker -> nat)
    requires forall worker :: f(worker) <= 1
    ensures Sum(workers, f) <= |workers|
  {
    if workers != [] { SumAtMost(workers[..|workers| - 1], f); }
  }

  /** The three counts as one number, for n workers. */
  ghost function Weighed(r: nat, u: nat, a: nat, n: nat): nat {
    (r * (n + 1) + u) * (n + 1) + a
  }

  lemma {:induction false} TimesMore(x: nat, y: nat, m: nat)
    requires x < y
    ensures x * m + m <= y * m
  {
    if m > 0 {
      TimesMore(x, y, m - 1);
      assert x * m == x * (m - 1) + x && y * m == y * (m - 1) + y;
    }
  }

  lemma WeighedFalls(r: nat, u: nat, a: nat, r': nat, u': nat, a': nat, n: nat)
    requires u' <= n && a' <= n && (r' < r || (r' == r && (u' < u || (u' == u && a' < a))))
    ensures Weighed(r', u', a', n) < Weighed(r, u, a, n)
  {
    var x, x' := r * (n + 1) + u, r' * (n + 1) + u';
    if r' < r { TimesMore(r', r, n + 1); }
    if x' < x { TimesMore(x', x, n + 1); }
  }

  ghost function Left(ctx: Context, s: State): nat {
    Weighed(Remaining(ctx, s), Sum(s.workers, Unfinished()), Sum(s.workers, Asking()), |s.workers|)
  }

  /** How many steps n workers can take. */
  ghost function Budget(ctx: Context, n: nat): nat {
    Weighed(Cost(ctx, Root(ctx)) + 2, n, n, n)
  }

  lemma LeftFalls(ctx: Context, s: State, step: Step)
    requires Enabled(ctx, s, step)
    ensures |After(ctx, s, step).workers| == |s.workers|
    ensures !step.Wake? ==> Left(ctx, After(ctx, s, step)) < Left(ctx, s)
    ensures step.Wake? ==> Left(ctx, After(ctx, s, step)) == Left(ctx, s) + 1
  {
    hide Enabled, After, Remaining, Sum, Woken;
    StepShape(ctx, s, step);
    hide Weighed;
    var s' := After(ctx, s, step);
    SumAtMost(s'.workers, Unfinished());
    SumAtMost(s'.workers, Asking());
    if step.Wake? {
      WakeAsks(ctx, s, step);
      assert Weighed(Remaining(ctx, s), Sum(s.workers, Unfinished()), Sum(s.workers, Asking()) + 1, |s.workers|)
        == Weighed(Remaining(ctx, s), Sum(s.workers, Unfinished()), Sum(s.workers, Asking()), |s.workers|) + 1 by {
        WeighedNext(Remaining(ctx, s), Sum(s.workers, Unfinished()), Sum(s.workers, Asking()), |s.workers|);
      }
    } else {
      StepEnds(ctx, s, step);
      WeighedFalls(Remaining(ctx, s), Sum(s.workers, Unfinished()), Sum(s.workers, Asking()),
                   Remaining(ctx, s'), Sum(s'.workers, Unfinished()), Sum(s'.workers, Asking()), |s.workers|);
    }
  }

  lemma WeighedNext(r: nat, u: nat, a: nat, n: nat)
    ensures Weighed(r, u, a + 1, n) == Weighed(r, u, a, n) + 1
  {}

  lemma InitLeft(ctx: Context, s: State)
    requires Init(ctx, s)
    ensures Left(ctx, s) <= Budget(ctx, |s.workers|)
  {
    var n := |s.workers|;
    SumZero(s.workers, CostTo(ctx));
    QueueCostAppend(ctx, [], Job(0, Root(ctx)));
    assert [] + [Job(0, Root(ctx))] == s.queue;
    SumAtMost(s.workers, Unfinished());
    SumAtMost(s.workers, Asking());
    hide Cost, Sum, QueueCost;
    WeighedUpTo(Remaining(ctx, s), Sum(s.workers, Unfinished()), Sum(s.workers, Asking()), n);
  }

  lemma WeighedUpTo(r: nat, u: nat, a: nat, n: nat)
    requires u <= n && a <= n
    ensures Weighed(r, u, a, n) <= Weighed(r, n, n, n)
  {
    if u < n { TimesMore(r * (n + 1) + u, r * (n + 1) + n, n + 1); }
  }

  ghost function WakeUps(steps: seq<Step>): nat {
    if steps == [] then 0 else WakeUps(steps[..|steps| - 1]) + if steps[|steps| - 1].Wake? then 1 else 0
  }

  lemma {:induction false} StepsUsed(ctx: Context, states: seq<State>, steps: seq<Step>)
    requires IsRun(ctx, states, steps)
    ensures |states[|steps|].workers| == |states[0].workers|
    ensures |steps| + Left(ctx, states[|steps|]) <= Left(ctx, states[0]) + 2 * WakeUps(steps)
    decreases |steps|
  {
    if steps != [] {
      var k := |steps| - 1;
      StepsUsed(ctx, states[..|states| - 1], steps[..k]);
      hide Left, Init, Enabled, After;
      LeftFalls(ctx, states[k], steps[k]);
    }
  }

  /** Every run ends: but for spurious wake-ups, each of which costs one step more, the number
      of steps has a bound that depends only on the context and the number of workers; and
      where a run cannot go on otherwise, all workers have left. */
  lemma EveryRunEnds(ctx: Context, states: seq<State>, steps: seq<Step>)
    requires ctx.Valid() && IsRun(ctx, states, steps)
    ensures |steps| <= Budget(ctx, |states[0].workers|) + 2 * WakeUps(steps)
    ensures AllFinished(states[|steps|]) || exists step :: Enabled(ctx, states[|steps|], step) && !step.Wake?
  {
    StepsUsed(ctx, states, steps);
    InitLeft(ctx, states[0]);
    RunInv(ctx, states, steps, |steps|);
    hide Inv, Enabled, Left, Budget;
    if !AllFinished(states[|steps|]) {
      var step := NeverStuck(ctx, states[|steps|]);
    }
  }
}
