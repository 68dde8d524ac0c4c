/** Transitive reduction and topological order of a strict order given as a graph. */
module Graphs {
  import opened FiniteSets
  import opened Derivation

  type Graph = seq<set<nat>>

  ghost predicate WellFormed(g: Graph) {
    forall u, v | 0 <= u < |g| && v in g[u] :: v < |g|
  }

  /** e[u] is what lies above u in a strict order. */
  ghost predicate StrictOrder(e: Graph) {
    && WellFormed(e)
    && forall u | 0 <= u < |e| :: u !in e[u] && forall v | v in e[u] :: e[v] <= e[u]
  }

  ghost predicate Between(e: Graph, u: nat, t: nat)
    requires WellFormed(e) && u < |e|
  {
    exists w :: w in e[u] && t in e[w]
  }

  /** The elements above u with nothing in between. */
  ghost function Covers(e: Graph, u: nat): set<nat>
    requires WellFormed(e) && u < |e|
  {
    set v | v in e[u] && !Between(e, u, v)
  }

  /** The first u vertices keep only their covers, the others everything above them. */
  ghost predicate Reduced(e: Graph, g: Graph, u: nat) {
    WellFormed(e) && |g| == |e| && forall w | 0 <= w < |e| :: g[w] == if w < u then Covers(e, w) else e[w]
  }

  ghost function Interval(e: Graph, s: nat, t: nat): set<nat>
    requires WellFormed(e) && s < |e|
  {
    set w | w in e[s] && t in e[w]
  }

  /** What the steps of a partly reduced graph lead through contains all that lies above. */
  lemma {:induction false} Downhill(e: Graph, g: Graph, u: nat, r: set<nat>, s: nat, t: nat)
    requires StrictOrder(e) && Reduced(e, g, u) && s < |e| && t in e[s]
    requires g[s] <= r && forall c | c in r && c < |e| :: g[c] <= r
    ensures t in r
    decreases |e[s]|, |Interval(e, s, t)|
  {
    if t !in g[s] {
      assert Between(e, s, t);
      var w :| w in e[s] && t in e[w];
      assert w in Interval(e, s, t) && Interval(e, s, w) <= Interval(e, s, t);
      SubsetCard(Interval(e, s, w), Interval(e, s, t));
      Downhill(e, g, u, r, s, w);
      SubsetCard(e[w], e[s]);
      Downhill(e, g, u, r, w, t);
    }
  }

  // ---- breadth-first search ----

  /** The queue lists what has been reached, each vertex once. */
  ghost predicate QueueOk(n: nat, reachable: set<nat>, queue: seq<nat>) {
    NoRepeats(queue) && ToSet(queue) == reachable && forall k | 0 <= k < |queue| :: queue[k] < n
  }

  method Enqueue(row: set<nat>, n: nat, reachable: set<nat>, queue: seq<nat>)
      returns (reachable': set<nat>, queue': seq<nat>)
    requires QueueOk(n, reachable, queue) && forall t | t in row :: t < n
    ensures QueueOk(n, reachable', queue') && reachable' == reachable + row && queue <= queue'
  {
    reachable', queue' := reachable, queue;
    for t := 0 to n
      invariant QueueOk(n, reachable', queue') && reachable' == reachable + Below(row, t) && queue <= queue'
    {
      if t in row && t !in reachable' {
        assert t !in queue';
        assert ToSet(queue' + [t]) == ToSet(queue') + {t};
        reachable', queue' := reachable' + {t}, queue' + [t];
      }
    }
    assert Below(row, n) == row;
  }

  /** All that can be reached from u in two steps or more. */
  method ReachableBeyond(ghost e: Graph, g: seq<set<nat>>, u: nat) returns (reachable: set<nat>)
    requires StrictOrder(e) && Reduced(e, g, u) && u < |e|
    ensures forall t :: t in reachable <==> Between(e, u, t)
  {
    var n := |g|;
    ReducedWithin(e, g, u);
    hide StrictOrder, Reduced, Between;
    reachable := {};
    var queue: seq<nat> := [];
    for s := 0 to n
      invariant QueueOk(n, reachable, queue)
      invariant forall t | t in reachable :: Between(e, u, t)
      invariant forall c | c in g[u] && c < s :: g[c] <= reachable
    {
      if s in g[u] {
        FirstStep(e, g, u, s);
        reachable, queue := Enqueue(g[s], n, reachable, queue);
      }
    }
    var head := 0;
    while head < |queue|
      invariant QueueOk(n, reachable, queue) && head <= |queue|
      invariant forall t | t in reachable :: Between(e, u, t)
      invariant forall c | c in g[u] :: g[c] <= reachable
      invariant forall k | 0 <= k < head :: queue[k] < n && g[queue[k]] <= reachable
      decreases n - head
    {
      var cur := queue[head];
      Pigeonhole(queue, n);
      ghost var before := queue;
      BeyondStep(e, g, u, cur);
      assert cur in queue;
      reachable, queue := Enqueue(g[cur], n, reachable, queue);
      assert forall k | 0 <= k <= head :: queue[k] == before[k];
      Pigeonhole(queue, n);
      head := head + 1;
    }
    forall c | c in reachable && c < n ensures g[c] <= reachable {
      assert c in queue;
    }
    forall t | Between(e, u, t) ensures t in reachable {
      BeyondReached(e, g, u, reachable, t);
    }
  }

  lemma BeyondReached(e: Graph, g: Graph, u: nat, r: set<nat>, t: nat)
    requires StrictOrder(e) && Reduced(e, g, u) && u < |e| && Between(e, u, t)
    requires forall c | c in g[u] && c < |e| :: g[c] <= r
    requires forall c | c in r && c < |e| :: g[c] <= r
    ensures t in r
  {
    var w :| w in e[u] && t in e[w];
    Downhill(e, g, u, r, w, t);
  }

  lemma ReducedWithin(e: Graph, g: Graph, u: nat)
    requires StrictOrder(e) && Reduced(e, g, u)
    ensures WellFormed(g) && (u < |e| ==> g[u] == e[u]) && forall w | 0 <= w < |e| :: g[w] <= e[w]
  {}

  lemma FirstStep(e: Graph, g: Graph, u: nat, c: nat)
    requires StrictOrder(e) && Reduced(e, g, u) && u < |e| && c in g[u]
    ensures c < |e| && forall t | t in g[c] :: Between(e, u, t)
  {}

  lemma BeyondStep(e: Graph, g: Graph, u: nat, c: nat)
    requires StrictOrder(e) && Reduced(e, g, u) && u < |e| && Between(e, u, c)
    ensures c < |e| && forall t | t in g[c] :: Between(e, u, t)
  {
    var w :| w in e[u] && c in e[w];
    assert e[c] <= e[w];
  }

  /** In place, every vertex keeps exactly its covers. */
  method TransitiveReduction(adj: array<set<nat>>)
    requires StrictOrder(adj[..])
    modifies adj
    ensures Reduced(old(adj[..]), adj[..], adj.Length)
  {
    ghost var e := adj[..];
    for u := 0 to adj.Length
      invariant Reduced(e, adj[..], u)
    {
      if |adj[u]| <= 1 {
        OnlyCover(e, u);
        continue;
      }
      var reachable := ReachableBeyond(e, adj[..], u);
      adj[u] := adj[u] - reachable;
    }
  }

  lemma OnlyCover(e: Graph, u: nat)
    requires StrictOrder(e) && u < |e| && |e[u]| <= 1
    ensures Covers(e, u) == e[u]
  {
    forall v | v in e[u] ensures !Between(e, u, v) {
      if w :| w in e[u] && v in e[w] {
        SubsetCard({v, w}, e[u]);
      }
    }
  }

  // ---- topological order ----

  /** The vertices of vs with an edge to v. */
  ghost function Before(g: Graph, vs: set<nat>, v: nat): set<nat> {
    set u | u in vs && u < |g| && v in g[u]
  }

  lemma BeforeStep(g: Graph, vs: set<nat>, u: nat, v: nat)
    requires u < |g| && u !in vs
    ensures |Before(g, vs + {u}, v)| == |Before(g, vs, v)| + (if v in g[u] then 1 else 0)
  {
    if v in g[u] {
      assert Before(g, vs + {u}, v) == Before(g, vs, v) + {u};
    } else {
      assert Before(g, vs + {u}, v) == Before(g, vs, v);
    }
  }

  /** The counter of every vertex below `lim` counts the edges from vs and u, that of the
      others the edges from vs. */
  ghost predicate Counted(g: Graph, degree: seq<int>, vs: set<nat>, u: nat, lim: nat) {
    |degree| == |g| && forall v | 0 <= v < |g| :: degree[v] == |Before(g, if v < lim then vs + {u} else vs, v)|
  }

  method CountEdges(g: seq<set<nat>>, vertices: set<nat>) returns (degree: array<int>)
    requires WellFormed(g) && forall v | v in vertices :: v < |g|
    ensures fresh(degree) && Counted(g, degree[..], vertices, 0, 0)
  {
    var n := |g|;
    degree := new int[n](v => 0);
    forall v ensures Before(g, {}, v) == {} {}
    for u := 0 to n
      invariant Counted(g, degree[..], Below(vertices, u), 0, 0)
    {
      if u in vertices {
        assert Below(vertices, u + 1) == Below(vertices, u) + {u};
        for v := 0 to n
          invariant Counted(g, degree[..], Below(vertices, u), u, v)
        {
          BeforeStep(g, Below(vertices, u), u, v);
          if v in g[u] {
            degree[v] := degree[v] + 1;
          }
        }
      } else {
        assert Below(vertices, u + 1) == Below(vertices, u);
      }
    }
    assert Below(vertices, n) == vertices;
  }

  /** No vertex of the list has an edge to itself or to an earlier one, and nothing that
      leads to it is missing. */
  ghost predicate Ordered(g: Graph, vertices: set<nat>, list: seq<nat>) {
    forall j | 0 <= j < |list| :: Before(g, vertices, list[j]) <= ToSet(list[..j])
  }

  ghost predicate ListOk(g: Graph, vertices: set<nat>, list: seq<nat>) {
    NoRepeats(list) && ToSet(list) <= vertices && Ordered(g, vertices, list)
  }

  lemma Append(g: Graph, vertices: set<nat>, list: seq<nat>, v: nat)
    requires ListOk(g, vertices, list) && v in vertices && v !in list && Before(g, vertices, v) <= ToSet(list)
    ensures ListOk(g, vertices, list + [v])
  {
    var list' := list + [v];
    forall j | 0 <= j < |list'| ensures Before(g, vertices, list'[j]) <= ToSet(list'[..j]) {
      assert list'[..j] == list[..j];
      if j == |list| { assert list[..j] == list; }
    }
  }

  /** Queued below lim: exactly the vertices with nothing left before them; those above
      lim are as they were before u was taken. */
  ghost predicate Queued(g: Graph, vertices: set<nat>, queue: seq<nat>, left: set<nat>, u: nat, lim: nat) {
    forall v: nat | v in vertices :: v in queue <==> Before(g, if v < lim then left else left + {u}, v) == {}
  }

  lemma NothingBefore(g: Graph, vertices: set<nat>, done: set<nat>, v: nat)
    requires Before(g, vertices - done, v) == {}
    ensures Before(g, vertices, v) <= done
  {
    forall u | u in Before(g, vertices, v) ensures u in done {
      assert u in Before(g, vertices - done, v) <==> u !in done;
    }
  }

  /** A vertex that is not listed has one before it that is not either: without cycles
      there is none. */
  lemma {:induction false} Listed(e: Graph, g: Graph, vertices: set<nat>, queue: seq<nat>, v: nat)
    requires StrictOrder(e) && |g| == |e| && forall u | 0 <= u < |g| :: g[u] <= e[u]
    requires Queued(g, vertices, queue, vertices - ToSet(queue), 0, |g|)
    requires v in vertices && forall u | u in vertices :: u < |g|
    ensures v in queue
    decreases |Before(e, vertices, v)|
  {
    if v !in queue {
      var u :| u in Before(g, vertices - ToSet(queue), v);
      assert u in Before(e, vertices, v) && u !in Before(e, vertices, u);
      forall w | w in Before(e, vertices, u) ensures w in Before(e, vertices, v) {
        assert e[u] <= e[w];
      }
      SubsetCard(Before(e, vertices, u), Before(e, vertices, v));
      Listed(e, g, vertices, queue, u);
      assert false;
    }
  }

  lemma Forward(g: Graph, vertices: set<nat>, list: seq<nat>, i: nat, j: nat)
    requires ListOk(g, vertices, list) && i < |list| && j < |list| && list[j] < |g| && list[i] in g[list[j]]
    ensures j < i
  {
    assert list[j] in ToSet(list);
    assert list[j] in Before(g, vertices, list[i]);
    assert list[j] in list[..i];
  }

  /** Takes vertex u out: its successors lose an edge, and those left without any are
      queued. */
  method Release(g: seq<set<nat>>, ghost vertices: set<nat>, ghost done: seq<nat>, u: nat,
                 degree: array<int>, queue0: seq<nat>) returns (queue: seq<nat>)
    requires WellFormed(g) && u < |g| && u in vertices && done + [u] <= queue0
    requires ListOk(g, vertices, queue0) && (forall v | v in vertices :: v < |g|) && g[u] <= vertices
    requires Counted(g, degree[..], vertices - ToSet(done), 0, 0)
    requires Queued(g, vertices, queue0, vertices - ToSet(done), 0, |g|)
    modifies degree
    ensures ListOk(g, vertices, queue) && queue0 <= queue
    ensures Counted(g, degree[..], vertices - ToSet(done + [u]), 0, 0)
    ensures Queued(g, vertices, queue, vertices - ToSet(done + [u]), 0, |g|)
  {
    hide WellFormed, Before, Ordered;
    ghost var left := vertices - ToSet(done + [u]);
    LeftStep(vertices, done, u, queue0);
    queue := queue0;
    for v := 0 to |g|
      invariant ListOk(g, vertices, queue) && queue0 <= queue
      invariant |degree[..]| == |g| && degree.Length == |g|
      invariant forall w | 0 <= w < |g| :: degree[w] == |Before(g, if w < v then left else left + {u}, w)|
      invariant Queued(g, vertices, queue, left, u, v)
    {
      BeforeStep(g, left, u, v);
      if v in g[u] {
        degree[v] := degree[v] - 1;
        if degree[v] == 0 {
          NothingBefore(g, vertices, ToSet(done + [u]), v);
          EarlierOnly(done + [u], queue);
          Append(g, vertices, queue, v);
          queue := queue + [v];
        }
      }
    }
  }

  lemma EarlierOnly(s: seq<nat>, t: seq<nat>)
    requires s <= t
    ensures ToSet(s) <= ToSet(t)
  {}

  lemma LeftStep(vertices: set<nat>, done: seq<nat>, u: nat, queue: seq<nat>)
    requires done + [u] <= queue && NoRepeats(queue) && u in vertices
    ensures u !in done && ToSet(done + [u]) == ToSet(done) + {u}
    ensures vertices - ToSet(done) == vertices - ToSet(done + [u]) + {u}
    ensures u !in vertices - ToSet(done + [u])
  {
    assert queue[|done|] == u;
    forall k | 0 <= k < |done| ensures done[k] != u {
      assert queue[k] == done[k];
    }
  }

  method Sources(g: seq<set<nat>>, vertices: set<nat>, degree: array<int>) returns (queue: seq<nat>)
    requires WellFormed(g) && Counted(g, degree[..], vertices, 0, 0) && forall v | v in vertices :: v < |g|
    ensures ListOk(g, vertices, queue) && Queued(g, vertices, queue, vertices, 0, |g|)
  {
    queue := [];
    for v := 0 to |g|
      invariant ListOk(g, vertices, queue)
      invariant forall w: nat :: w in queue <==> w < v && w in vertices && Before(g, vertices, w) == {}
    {
      assert degree[v] == |Before(g, vertices, v)|;
      if v in vertices && degree[v] == 0 {
        Append(g, vertices, queue, v);
        queue := queue + [v];
      }
    }
  }

  lemma PartOf(g: Graph, e: Graph)
    requires WellFormed(e) && |g| == |e| && forall u | 0 <= u < |g| :: g[u] <= e[u]
    ensures WellFormed(g)
  {}

  lemma NoLonger(g: Graph, vertices: set<nat>, list: seq<nat>)
    requires ListOk(g, vertices, list) && forall v | v in vertices :: v < |g|
    ensures |list| <= |g|
  {
    forall k | 0 <= k < |list| ensures list[k] < |g| {
      assert list[k] in ToSet(list);
    }
    Pigeonhole(list, |g|);
  }

  /** Every vertex once, and every edge leads forward. */
  method TopologicalOrder(ghost e: Graph, g: seq<set<nat>>, vertices: set<nat>) returns (result: seq<nat>)
    requires StrictOrder(e) && |g| == |e| && forall u | 0 <= u < |g| :: g[u] <= e[u]
    requires forall u | u in vertices :: u < |g| && g[u] <= vertices
    ensures NoRepeats(result) && ToSet(result) == vertices
    ensures forall i, j | 0 <= i < |result| && 0 <= j < |result| ::
      result[j] in vertices && (result[i] in g[result[j]] ==> j < i)
  {
    PartOf(g, e);
    hide StrictOrder, WellFormed, Counted, Queued, NoRepeats, Ordered;
    var degree := CountEdges(g, vertices);
    var queue := Sources(g, vertices, degree);
    result := [];
    var head := 0;
    NoLonger(g, vertices, queue);
    assert vertices - ToSet([]) == vertices;
    while head < |queue|
      invariant head <= |queue| <= |g| && result == queue[..head]
      invariant ListOk(g, vertices, queue)
      invariant Counted(g, degree[..], vertices - ToSet(result), 0, 0)
      invariant Queued(g, vertices, queue, vertices - ToSet(result), 0, |g|)
      decreases |g| - head
    {
      var u := queue[head];
      head := head + 1;
      assert u in ToSet(queue) && queue[..head] == result + [u];
      queue := Release(g, vertices, result, u, degree, queue);
      result := result + [u];
      NoLonger(g, vertices, queue);
    }
    assert result == queue;
    forall v | v in vertices ensures v in queue {
      Listed(e, g, vertices, queue, v);
    }
    forall i, j | 0 <= i < |queue| && 0 <= j < |queue|
      ensures queue[j] in vertices && (queue[i] in g[queue[j]] ==> j < i)
    {
      assert queue[j] in ToSet(queue);
      if queue[i] in g[queue[j]] { Forward(g, vertices, queue, i, j); }
    }
  }
}
