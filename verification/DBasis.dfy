/** The D-basis of a clarified context: implications between single attributes first, then
    the minimal covers of each attribute.  One sweep through it reaches every closure. */
module DBasis {
  import opened FiniteSets
  import opened FormalContext
  import opened Implications
  import opened Graphs
  import opened Generators
  import opened MinimalCovers
  import opened Sweeps
  import Derivation

  // ---- implications between single attributes ----

  ghost predicate IsFull(ctx: Context, a: nat)
    requires a < |ctx.cols|
  {
    ctx.cols[a] == ctx.Objects()
  }

  /** Attribute v follows from u, and neither belongs to all objects. */
  ghost predicate Implies(ctx: Context, u: nat, v: nat)
    requires u < |ctx.cols| && v < |ctx.cols|
  {
    u != v && !IsFull(ctx, u) && !IsFull(ctx, v) && ctx.cols[u] <= ctx.cols[v]
  }

  ghost function Above(ctx: Context): (g: Graph)
    ensures |g| == |ctx.cols|
    ensures forall u: nat, v: nat | u < |g| :: v in g[u] <==> v < |g| && Implies(ctx, u, v)
  {
    seq(|ctx.cols|, u requires 0 <= u < |ctx.cols| => set v: nat | v < |ctx.cols| && Implies(ctx, u, v))
  }

  lemma AboveIsOrder(ctx: Context)
    requires ctx.Valid() && Clarified(ctx)
    ensures StrictOrder(Above(ctx))
  {
    var e := Above(ctx);
    forall u, v, w | 0 <= u < |e| && v in e[u] && w in e[v] ensures w in e[u] {
      NotBothWays(ctx, u, v);
    }
  }

  lemma NotBothWays(ctx: Context, u: nat, v: nat)
    requires Clarified(ctx) && u < |ctx.cols| && v < |ctx.cols| && u != v
    ensures !(ctx.cols[u] <= ctx.cols[v] && ctx.cols[v] <= ctx.cols[u])
  {
    assert ctx.cols[u] != ctx.cols[v];
  }

  /** The single attributes that imply a. */
  ghost function BinaryPremises(ctx: Context, a: nat): set<nat>
    requires a < |ctx.cols|
  {
    set u: nat | u < |ctx.cols| && u != a && !IsFull(ctx, u) && ctx.cols[u] <= ctx.cols[a]
  }

  /** Everything that follows from s by implications with at most one premise. */
  ghost function BinaryClosure(ctx: Context, s: set<nat>): set<nat>
    requires s <= ctx.Attributes()
  {
    set a: nat | a < |ctx.cols| && (IsFull(ctx, a) || Reaches(ctx, s, a))
  }

  lemma BinaryClosureWithin(ctx: Context, s: set<nat>)
    requires ctx.Valid() && s <= ctx.Attributes()
    ensures s <= BinaryClosure(ctx, s) <= ctx.Closure(s) <= ctx.Attributes()
  {
    ClosureExtensive(ctx, s);
    forall a | a in BinaryClosure(ctx, s) ensures a in ctx.Closure(s) {
      forall o | o in ctx.Extent(s) ensures o in ctx.cols[a] {
        if !IsFull(ctx, a) {
          var b :| b in s && ctx.cols[b] <= ctx.cols[a];
          assert b in ctx.rows[o] && o in ctx.cols[b];
        }
      }
    }
    forall a | a in s ensures Reaches(ctx, s, a) {}
  }

  lemma BinaryClosureIdempotent(ctx: Context, s: set<nat>)
    requires ctx.Valid() && s <= ctx.Attributes()
    ensures BinaryClosure(ctx, BinaryClosure(ctx, s)) == BinaryClosure(ctx, s)
  {
    var c := BinaryClosure(ctx, s);
    BinaryClosureWithin(ctx, s);
    BinaryClosureWithin(ctx, c);
    forall a | a in BinaryClosure(ctx, c) ensures a in c {
      if !IsFull(ctx, a) { ReachesTwice(ctx, s, c, a); }
    }
  }

  lemma ReachesTwice(ctx: Context, s: set<nat>, c: set<nat>, a: nat)
    requires s <= ctx.Attributes() && c <= ctx.Attributes() && a < |ctx.cols| && !IsFull(ctx, a)
    requires forall b | b in c && !IsFull(ctx, b) :: Reaches(ctx, s, b)
    requires Reaches(ctx, c, a) && ctx.Valid()
    ensures Reaches(ctx, s, a)
  {
    var b :| b in c && ctx.cols[b] <= ctx.cols[a];
    assert !IsFull(ctx, b);
    var d :| d in s && ctx.cols[d] <= ctx.cols[b];
    assert ctx.cols[d] <= ctx.cols[a];
  }

  lemma SameClosure(ctx: Context, s: set<nat>)
    requires ctx.Valid() && s <= ctx.Attributes()
    ensures BinaryClosure(ctx, s) <= ctx.Attributes()
    ensures ctx.Closure(BinaryClosure(ctx, s)) == ctx.Closure(s)
  {
    BinaryClosureWithin(ctx, s);
    ClosureMonotone(ctx, s, BinaryClosure(ctx, s));
    ClosureMonotone(ctx, BinaryClosure(ctx, s), ctx.Closure(s));
    ClosureIdempotent(ctx, s);
  }

  ghost predicate VerticesOf(adj: seq<set<nat>>, vertices: set<nat>) {
    && (forall v | v in vertices :: v < |adj|)
    && (forall u | 0 <= u < |adj| :: adj[u] <= vertices && (adj[u] != {} ==> u in vertices))
  }

  lemma MoreVertices(adj: seq<set<nat>>, vertices: set<nat>, u: nat, v: nat)
    requires VerticesOf(adj, vertices) && u < |adj| && v < |adj|
    ensures VerticesOf(adj[u := adj[u] + {v}], vertices + {u, v})
  {}

  lemma FewerVertices(adj: seq<set<nat>>, adj': seq<set<nat>>, vertices: set<nat>, t: nat)
    requires VerticesOf(adj, vertices) && |adj'| == |adj|
    requires forall u | 0 <= u < |adj| :: adj'[u] == if u == t then {} else adj[u] - {t}
    ensures VerticesOf(adj', vertices - {t})
  {}

  lemma GraphIsAbove(ctx: Context, adj: seq<set<nat>>, adj': seq<set<nat>>, premises: seq<set<nat>>, t: int)
    requires GraphUpTo(ctx, adj, premises, |ctx.cols|) && |adj'| == |adj|
    requires forall a | 0 <= a < |ctx.cols| :: IsFull(ctx, a) <==> a == t
    requires forall u | 0 <= u < |adj| :: adj'[u] == if t < 0 then adj[u] else if u == t then {} else adj[u] - {t}
    ensures adj' == Above(ctx) && forall a | 0 <= a < |premises| :: premises[a] == BinaryPremises(ctx, a)
  {
    forall u | 0 <= u < |adj| ensures adj'[u] == Above(ctx)[u] {}
  }

  /** The attributes that follow from u alone. */
  ghost function Row(ctx: Context, u: nat): set<nat>
    requires u < |ctx.cols|
  {
    set v: nat | v < |ctx.cols| && u in BinaryPremises(ctx, v)
  }

  /** The rows below n are complete, the others empty. */
  ghost predicate GraphUpTo(ctx: Context, adj: seq<set<nat>>, premises: seq<set<nat>>, n: nat) {
    && |adj| == |premises| == |ctx.cols|
    && (forall u | 0 <= u < |adj| :: adj[u] == if u < n then Row(ctx, u) else {})
    && (forall v | 0 <= v < |premises| :: premises[v] == Derivation.Below(BinaryPremises(ctx, v), n))
  }

  lemma RowStep(ctx: Context, u: nat, v: nat)
    requires u < |ctx.cols| && v < |ctx.cols| && !IsFull(ctx, u)
    ensures u in BinaryPremises(ctx, v) <==> u != v && ctx.cols[u] <= ctx.cols[v]
    ensures Derivation.Below(Row(ctx, u), v + 1) == Derivation.Below(Row(ctx, u),
        v) + (if u in BinaryPremises(ctx, v) then {v} else {})
    ensures Derivation.Below(BinaryPremises(ctx, v), u + 1) ==
      Derivation.Below(BinaryPremises(ctx, v), u) + (if u in BinaryPremises(ctx, v) then {u} else {})
  {}

  lemma RowStart(ctx: Context, u: nat)
    requires u < |ctx.cols|
    ensures Derivation.Below(Row(ctx, u), 0) == {} && Derivation.Below(Row(ctx, u), |ctx.cols|) == Row(ctx, u)
  {}

  method AddRow(ctx: Context, adj: array<set<nat>>, a1: nat, vertices0: set<nat>, premises0: seq<set<nat>>)
      returns (vertices: set<nat>, premises: seq<set<nat>>)
    requires adj.Length == |ctx.cols| && a1 < |ctx.cols| && !IsFull(ctx, a1)
    requires GraphUpTo(ctx, adj[..], premises0, a1) && VerticesOf(adj[..], vertices0)
    modifies adj
    ensures GraphUpTo(ctx, adj[..], premises, a1 + 1) && VerticesOf(adj[..], vertices)
  {
    hide BinaryPremises, Row, Derivation.Below, IsFull;
    vertices, premises := vertices0, premises0;
    RowStart(ctx, a1);
    for a2 := 0 to |ctx.cols|
      invariant adj[a1] == Derivation.Below(Row(ctx, a1), a2)
      invariant forall u | 0 <= u < adj.Length && u != a1 :: adj[u] == old(adj[u])
      invariant |premises| == |ctx.cols|
      invariant forall v | 0 <= v < |premises| ::
        premises[v] == Derivation.Below(BinaryPremises(ctx, v), if v < a2 then a1 + 1 else a1)
      invariant VerticesOf(adj[..], vertices)
    {
      RowStep(ctx, a1, a2);
      if a1 != a2 && ctx.cols[a1] <= ctx.cols[a2] {
        MoreVertices(adj[..], vertices, a1, a2);
        assert adj[..][a1 := adj[a1] + {a2}][a1] == adj[a1] + {a2};
        adj[a1] := adj[a1] + {a2};
        vertices := vertices + {a1, a2};
        premises := premises[a2 := premises[a2] + {a1}];
      }
    }
  }

  /** Rows of full attributes are empty. */
  lemma FullRow(ctx: Context, adj: seq<set<nat>>, premises: seq<set<nat>>, a: nat)
    requires a < |ctx.cols| && IsFull(ctx, a) && GraphUpTo(ctx, adj, premises, a)
    ensures GraphUpTo(ctx, adj, premises, a + 1)
  {
    assert Row(ctx, a) == {};
    forall v | 0 <= v < |premises|
      ensures Derivation.Below(BinaryPremises(ctx, v), a + 1) == Derivation.Below(BinaryPremises(ctx, v), a) {}
  }

  lemma GraphStart(ctx: Context, adj: seq<set<nat>>, premises: seq<set<nat>>)
    requires |adj| == |premises| == |ctx.cols|
    requires forall u | 0 <= u < |adj| :: adj[u] == premises[u] == {}
    ensures GraphUpTo(ctx, adj, premises, 0) && VerticesOf(adj, {})
  {
    assert forall v | 0 <= v < |premises| :: Derivation.Below(BinaryPremises(ctx, v), 0) == {};
  }

  method BuildGraph(ctx: Context)
      returns (adj: array<set<nat>>, vertices: set<nat>, premises: seq<set<nat>>, alwaysTrue: int)
    requires ctx.Valid() && Clarified(ctx)
    ensures fresh(adj) && adj[..] == Above(ctx) && VerticesOf(adj[..], vertices)
    ensures |premises| == |ctx.cols| && forall a | 0 <= a < |premises| :: premises[a] == BinaryPremises(ctx, a)
    ensures -1 <= alwaysTrue < |ctx.cols| && forall a | 0 <= a < |ctx.cols| :: IsFull(ctx, a) <==> a == alwaysTrue
  {
    hide GraphUpTo, VerticesOf;
    var n := |ctx.cols|;
    adj := new set<nat>[n](a => {});
    vertices, premises, alwaysTrue := {}, seq(n, a => {}), -1;
    GraphStart(ctx, adj[..], premises);
    for a1 := 0 to n
      invariant GraphUpTo(ctx, adj[..], premises, a1) && VerticesOf(adj[..], vertices)
      invariant -1 <= alwaysTrue < a1 && forall a | 0 <= a < a1 :: IsFull(ctx, a) <==> a == alwaysTrue
    {
      FullByCount(ctx, a1);
      if |ctx.cols[a1]| == |ctx.rows| {
        assert forall a | 0 <= a < a1 :: ctx.cols[a] != ctx.cols[a1];
        FullRow(ctx, adj[..], premises, a1);
        alwaysTrue := a1;
      } else {
        vertices, premises := AddRow(ctx, adj, a1, vertices, premises);
      }
    }
    ghost var adj0 := adj[..];
    if alwaysTrue >= 0 {
      assert forall v | v in adj0[alwaysTrue] :: v < |adj0| by { RowInRange(ctx, adj0, premises, alwaysTrue); }
      DropVertex(adj, alwaysTrue);
      FewerVertices(adj0, adj[..], vertices, alwaysTrue);
      vertices := vertices - {alwaysTrue};
    }
    GraphIsAbove(ctx, adj0, adj[..], premises, alwaysTrue);
    assert |premises| == n by { RowInRange(ctx, adj0, premises, -1); }
  }

  lemma RowInRange(ctx: Context, adj: seq<set<nat>>, premises: seq<set<nat>>, u: int)
    requires GraphUpTo(ctx, adj, premises, |ctx.cols|) && u < |ctx.cols|
    ensures |premises| == |adj| == |ctx.cols| && (u >= 0 ==> forall v | v in adj[u] :: v < |adj|)
  {}

  lemma FullByCount(ctx: Context, a: nat)
    requires ctx.Valid() && a < |ctx.cols|
    ensures |ctx.cols[a]| == |ctx.rows| <==> IsFull(ctx, a)
  {
    RangeCard(|ctx.rows|);
    SubsetCard(ctx.cols[a], ctx.Objects());
  }

  /** Removes every edge to and from a vertex. */
  method DropVertex(adj: array<set<nat>>, t: nat)
    requires t < adj.Length && forall v | v in adj[t] :: v < adj.Length
    modifies adj
    ensures forall u | 0 <= u < adj.Length :: adj[u] == if u == t then {} else old(adj[u]) - {t}
  {
    for v := 0 to adj.Length
      invariant forall u | 0 <= u < adj.Length && u != t :: adj[u] == if u < v then old(adj[u]) - {t} else old(adj[u])
      invariant forall x | x in adj[t] :: v <= x < adj.Length
    {
      adj[v] := adj[v] - {t};
      adj[t] := adj[t] - {v};
    }
  }

  // ---- the binary part of the basis ----

  /** An edge of the reduced graph. */
  ghost predicate IsCoverRule(ctx: Context, f: Implication, u: nat, v: nat)
    requires WellFormed(Above(ctx))
  {
    u < |ctx.cols| && v in Covers(Above(ctx), u) && f.premise == {u} && f.closure == {v}
  }

  ghost predicate IsFullRule(ctx: Context, f: Implication) {
    f.premise == {} && exists t: nat :: t < |ctx.cols| && IsFull(ctx, t) && f.closure == {t}
  }

  ghost predicate HasRule(l: seq<Implication>, premise: set<nat>, conclusion: set<nat>) {
    exists i :: 0 <= i < |l| && l[i].premise == premise && l[i].closure == conclusion
  }

  /** The attribute of all objects, then the covers, every attribute after all that imply it. */
  ghost predicate IsBinaryBasis(ctx: Context, l: seq<Implication>)
    requires WellFormed(Above(ctx))
  {
    && (forall i | 0 <= i < |l| :: IsFullRule(ctx, l[i]) || exists u: nat, v: nat :: IsCoverRule(ctx, l[i], u, v))
    && (forall t: nat | t < |ctx.cols| && IsFull(ctx, t) :: HasRule(l, {}, {t}))
    && (forall u: nat, v: nat | u < |ctx.cols| && v in Covers(Above(ctx), u) :: HasRule(l, {u}, {v}))
    && (forall i, j | 0 <= i <= j < |l| :: l[j].closure !! l[i].premise)
  }

  lemma FullImpliesFull(ctx: Context, x: set<nat>, a: nat)
    requires ctx.Valid() && x <= ctx.Attributes() && a < |ctx.cols| && Reaches(ctx, x, a)
    ensures IsFull(ctx, a) || a in x || exists b :: b in x && b < |ctx.cols| && Implies(ctx, b, a)
  {
    var b :| b in x && ctx.cols[b] <= ctx.cols[a];
    if b != a && !IsFull(ctx, a) {
      assert Implies(ctx, b, a);
    }
  }

  /** Sets closed under the covers are closed under all binary implications. */
  lemma CoversSuffice(ctx: Context, x: set<nat>)
    requires ctx.Valid() && Clarified(ctx) && x <= ctx.Attributes() && StrictOrder(Above(ctx))
    requires forall t: nat | t < |ctx.cols| && IsFull(ctx, t) :: t in x
    requires forall u | u in x :: Covers(Above(ctx), u) <= x
    ensures BinaryClosure(ctx, x) == x
  {
    var e := Above(ctx);
    var g := seq(|e|, u requires 0 <= u < |e| => Covers(e, u));
    assert Reduced(e, g, |e|);
    forall a | a in BinaryClosure(ctx, x) ensures a in x {
      if !IsFull(ctx, a) {
        FullImpliesFull(ctx, x, a);
        if a !in x {
          var b :| b in x && b < |ctx.cols| && Implies(ctx, b, a);
          Downhill(e, g, |e|, x, b, a);
        }
      }
    }
    BinaryClosureWithin(ctx, x);
  }

  lemma BinaryRespected(ctx: Context, l: seq<Implication>, s: set<nat>)
    requires ctx.Valid() && s <= ctx.Attributes() && WellFormed(Above(ctx)) && IsBinaryBasis(ctx, l)
    ensures Respects(l, BinaryClosure(ctx, s))
  {
    var c := BinaryClosure(ctx, s);
    forall i | 0 <= i < |l| && l[i].premise <= c ensures l[i].closure <= c {
      if !IsFullRule(ctx, l[i]) {
        var u: nat, v: nat :| IsCoverRule(ctx, l[i], u, v);
        assert u in c && Implies(ctx, u, v);
        assert Reaches(ctx, c, v);
        BinaryClosureWithin(ctx, s);
        BinaryClosureIdempotent(ctx, s);
        assert v in BinaryClosure(ctx, c);
      }
    }
  }

  /** One sweep through the binary part closes a set under binary implications. */
  lemma BinarySweep(ctx: Context, l: seq<Implication>, s: set<nat>)
    requires ctx.Valid() && Clarified(ctx) && s <= ctx.Attributes() && StrictOrder(Above(ctx)) && IsBinaryBasis(ctx, l)
    ensures Sweep(l, s) == BinaryClosure(ctx, s)
  {
    var r, c := Sweep(l, s), BinaryClosure(ctx, s);
    BinaryRespected(ctx, l, s);
    BinaryClosureWithin(ctx, s);
    SweepWithin(l, s, c);
    SweepPrefix(l, 0, s);
    forall t: nat | t < |ctx.cols| && IsFull(ctx, t) ensures t in r {
      assert HasRule(l, {}, {t});
      var i :| 0 <= i < |l| && l[i].premise == {} && l[i].closure == {t};
      SweepSettles(l, i, s);
    }
    forall u | u in r ensures Covers(Above(ctx), u) <= r {
      forall v | v in Covers(Above(ctx), u) ensures v in r {
        assert HasRule(l, {u}, {v});
        var i :| 0 <= i < |l| && l[i].premise == {u} && l[i].closure == {v};
        SweepSettles(l, i, s);
      }
    }
    CoversSuffice(ctx, r);
    BinaryClosureMonotone(ctx, s, r);
  }

  lemma BinaryClosureMonotone(ctx: Context, s: set<nat>, r: set<nat>)
    requires s <= r <= ctx.Attributes()
    ensures BinaryClosure(ctx, s) <= BinaryClosure(ctx, r)
  {
    forall a: nat | a < |ctx.cols| && Reaches(ctx, s, a) ensures Reaches(ctx, r, a) {}
  }

  /** The edges from the first p vertices of the order, and those from the next one to
      vertices below lim, in that order; ranks[i] is the place of the premise of l[i]. */
  ghost predicate EdgesListed(adj: seq<set<nat>>, order: seq<nat>, l: seq<Implication>, ranks: seq<nat>, p: nat,
                              lim: nat) {
    && |ranks| == |l| && (forall k | 0 <= k < |order| :: order[k] < |adj|)
    && (forall i, j | 0 <= i <= j < |ranks| :: ranks[i] <= ranks[j])
    && (forall i | 0 <= i < |l| :: ranks[i] < |order| && ranks[i] <= p && IsEdgeRule(adj, l[i], order[ranks[i]]))
    && (forall k, v: nat | 0 <= k < |order| && v in adj[order[k]]
      && (k < p || (k == p && v < lim)) :: HasRule(l, {order[k]}, {v}))
    && NoTwins(l) && forall i, v | 0 <= i < |l| && ranks[i] == p && v in l[i].closure :: v < lim
  }

  ghost predicate IsEdgeRule(adj: seq<set<nat>>, f: Implication, u: nat) {
    u < |adj| && f.premise == {u} && exists v :: v in adj[u] && f.closure == {v}
  }

  lemma OneMoreEdge(adj: seq<set<nat>>, order: seq<nat>, l: seq<Implication>, ranks: seq<nat>, p: nat, v: nat,
                    f: Implication)
    requires EdgesListed(adj, order, l, ranks, p, v) && p < |order| && NoRepeats(order)
    requires v in adj[order[p]] && f.premise == {order[p]} && f.closure == {v}
    ensures EdgesListed(adj, order, l + [f], ranks + [p], p, v + 1)
  {
    hide NoTwins, NoRepeats;
    var l' := l + [f];
    forall k, w: nat | 0 <= k < |order| && w in adj[order[k]] && (k < p || (k == p && w < v + 1))
      ensures HasRule(l', {order[k]}, {w}) {
      if k == p && w == v {
        assert l'[|l|] == f;
      } else {
        HasRuleKept(l, l', {order[k]}, {w});
      }
    }
    assert IsEdgeRule(adj, f, order[p]);
    NoTwinEdge(adj, order, l, ranks, p, v, f);
  }

  lemma NoTwinEdge(adj: seq<set<nat>>, order: seq<nat>, l: seq<Implication>, ranks: seq<nat>, p: nat, v: nat,
                   f: Implication)
    requires EdgesListed(adj, order, l, ranks, p, v) && p < |order| && NoRepeats(order)
    requires f.premise == {order[p]} && f.closure == {v}
    ensures NoTwins(l + [f])
  {
    forall i | 0 <= i < |l| ensures !Twins(l[i], f) {
      assert IsEdgeRule(adj, l[i], order[ranks[i]]);
      if ranks[i] == p { assert v !in l[i].closure; } else { assert order[ranks[i]] in l[i].premise; }
    }
    TwinsApart(l, [f]);
  }

  lemma HasRuleKept(l: seq<Implication>, l': seq<Implication>, premise: set<nat>, conclusion: set<nat>)
    requires HasRule(l, premise, conclusion) && l <= l'
    ensures HasRule(l', premise, conclusion)
  {
    var i :| 0 <= i < |l| && l[i].premise == premise && l[i].closure == conclusion;
    assert l'[i] == l[i];
  }

  lemma HasRuleBehind(head: seq<Implication>, l: seq<Implication>, premise: set<nat>, conclusion: set<nat>)
    requires HasRule(l, premise, conclusion)
    ensures HasRule(head + l, premise, conclusion)
  {
    var i :| 0 <= i < |l| && l[i].premise == premise && l[i].closure == conclusion;
    assert (head + l)[|head| + i] == l[i];
  }

  method ListEdges(ctx: Context, adj: seq<set<nat>>, order: seq<nat>)
      returns (l: seq<Implication>, ghost ranks: seq<nat>)
    requires |adj| == |ctx.cols| && WellFormed(adj) && NoRepeats(order)
      && forall k | 0 <= k < |order| :: order[k] < |adj|
    ensures EdgesListed(adj, order, l, ranks, |order|, 0)
  {
    l, ranks := [], [];
    for p := 0 to |order|
      invariant EdgesListed(adj, order, l, ranks, p, 0)
    {
      var u := order[p];
      for v := 0 to |adj|
        invariant EdgesListed(adj, order, l, ranks, p, v)
      {
        if v in adj[u] {
          var f := Implication({u}, {v}, ctx.cols[u]);
          OneMoreEdge(adj, order, l, ranks, p, v, f);
          l, ranks := l + [f], ranks + [p];
        }
      }
    }
  }

  /** The order of the graph is the order of the basis. */
  lemma EdgesAreBinaryBasis(ctx: Context, adj: seq<set<nat>>, vertices: set<nat>, order: seq<nat>,
                            head: seq<Implication>, l: seq<Implication>, ranks: seq<nat>)
    requires StrictOrder(Above(ctx)) && Reduced(Above(ctx), adj, |adj|) && EdgesListed(adj, order, l, ranks, |order|, 0)
    requires VerticesOf(adj, vertices) && ToSet(order) == vertices
    requires forall i, j | 0 <= i < |order| && 0 <= j < |order| && order[i] in adj[order[j]] :: j < i
    requires forall i | 0 <= i < |head| :: IsFullRule(ctx, head[i])
    requires forall t: nat | t < |ctx.cols| && IsFull(ctx, t) :: HasRule(head, {}, {t})
    ensures IsBinaryBasis(ctx, head + l)
  {
    hide EdgesListed, Reduced, HasRule, VerticesOf, IsFull, IsCoverRule, ToSet;
    var basis := head + l;
    forall i | 0 <= i < |basis|
      ensures IsFullRule(ctx, basis[i]) || exists u: nat, v: nat :: IsCoverRule(ctx, basis[i], u, v) {
      if i >= |head| { ListedIsCover(ctx, adj, order, l, ranks, i - |head|); }
    }
    forall t: nat | t < |ctx.cols| && IsFull(ctx, t) ensures HasRule(basis, {}, {t}) {
      HasRuleKept(head, basis, {}, {t});
    }
    forall u: nat, v: nat | u < |ctx.cols| && v in Covers(Above(ctx), u) ensures HasRule(basis, {u}, {v}) {
      CoverIsListed(ctx, adj, vertices, order, l, ranks, u, v);
      HasRuleBehind(head, l, {u}, {v});
    }
    forall i, j | 0 <= i <= j < |basis| ensures basis[j].closure !! basis[i].premise {
      if i >= |head| {
        EdgesForward(adj, order, l, ranks, i - |head|, j - |head|);
      }
    }
  }

  lemma ListedIsCover(ctx: Context, adj: seq<set<nat>>, order: seq<nat>, l: seq<Implication>, ranks: seq<nat>, i: nat)
    requires WellFormed(Above(ctx)) && Reduced(Above(ctx), adj, |adj|) && EdgesListed(adj, order, l, ranks, |order|, 0)
    requires i < |l|
    ensures exists u: nat, v: nat :: IsCoverRule(ctx, l[i], u, v)
  {
    EdgeIsCover(ctx, adj, l[i], order[ranks[i]]);
  }

  lemma CoverIsListed(ctx: Context, adj: seq<set<nat>>, vertices: set<nat>, order: seq<nat>, l: seq<Implication>,
                      ranks: seq<nat>, u: nat, v: nat)
    requires WellFormed(Above(ctx)) && Reduced(Above(ctx), adj, |adj|) && EdgesListed(adj, order, l, ranks, |order|, 0)
    requires VerticesOf(adj, vertices) && ToSet(order) == vertices
    requires u < |ctx.cols| && v in Covers(Above(ctx), u)
    ensures HasRule(l, {u}, {v})
  {
    assert v in adj[u] && u in vertices;
    var k :| 0 <= k < |order| && order[k] == u;
  }

  lemma EdgeIsCover(ctx: Context, adj: seq<set<nat>>, f: Implication, u: nat)
    requires WellFormed(Above(ctx)) && Reduced(Above(ctx), adj, |adj|) && IsEdgeRule(adj, f, u)
    ensures exists v: nat :: IsCoverRule(ctx, f, u, v)
  {
    var v: nat :| v in adj[u] && f.closure == {v};
    assert IsCoverRule(ctx, f, u, v);
  }

  lemma EdgesForward(adj: seq<set<nat>>, order: seq<nat>, l: seq<Implication>, ranks: seq<nat>, i: nat, j: nat)
    requires EdgesListed(adj, order, l, ranks, |order|, 0) && i <= j < |l|
    requires forall i, j | 0 <= i < |order| && 0 <= j < |order| && order[i] in adj[order[j]] :: j < i
    ensures l[j].closure !! l[i].premise
  {
    assert IsEdgeRule(adj, l[i], order[ranks[i]]) && IsEdgeRule(adj, l[j], order[ranks[j]]);
    assert ranks[i] <= ranks[j];
    assert order[ranks[i]] !in adj[order[ranks[j]]];
  }

  /** The attribute of all objects first, then the reduced graph in topological order. */
  method ComputeBinaryBasis(ctx: Context) returns (basis: seq<Implication>, premises: seq<set<nat>>)
    requires ctx.Valid() && Clarified(ctx)
    ensures StrictOrder(Above(ctx)) && IsBinaryBasis(ctx, basis) && NoTwins(basis)
    ensures |premises| == |ctx.cols| && forall a | 0 <= a < |premises| :: premises[a] == BinaryPremises(ctx, a)
  {
    hide IsFull, Clarified, StrictOrder, Reduced, EdgesListed;
    var adj, vertices, alwaysTrue;
    adj, vertices, premises, alwaysTrue := BuildGraph(ctx);
    var head := [];
    if alwaysTrue >= 0 {
      head := [Implication({}, {alwaysTrue as nat}, ctx.Objects())];
    }
    assert forall t: nat | t < |ctx.cols| && IsFull(ctx, t) :: HasRule(head, {}, {t}) by {
      if alwaysTrue >= 0 { assert head[0].premise == {} && HasRule(head, {}, {alwaysTrue as nat}); }
    }
    AboveIsOrder(ctx);
    TransitiveReduction(adj);
    ReducedVertices(ctx, adj[..], vertices);
    var order := TopologicalOrder(Above(ctx), adj[..], vertices);
    var edges, ranks := ListEdges(ctx, adj[..], order);
    EdgesAreBinaryBasis(ctx, adj[..], vertices, order, head, edges, ranks);
    EdgesHavePremises(adj[..], order, edges, ranks);
    TwinsApart(head, edges);
    basis := head + edges;
  }

  lemma EdgesHavePremises(adj: seq<set<nat>>, order: seq<nat>, l: seq<Implication>, ranks: seq<nat>)
    requires EdgesListed(adj, order, l, ranks, |order|, 0)
    ensures NoTwins(l) && forall i | 0 <= i < |l| :: l[i].premise != {}
  {
    forall i | 0 <= i < |l| ensures l[i].premise != {} {
      assert IsEdgeRule(adj, l[i], order[ranks[i]]);
    }
  }

  lemma ReducedVertices(ctx: Context, adj: seq<set<nat>>, vertices: set<nat>)
    requires StrictOrder(Above(ctx)) && Reduced(Above(ctx), adj, |adj|) && VerticesOf(Above(ctx), vertices)
    ensures VerticesOf(adj, vertices) && WellFormed(adj) && forall u | 0 <= u < |adj| :: adj[u] <= Above(ctx)[u]
  {}

  // ---- the non-binary part ----

  ghost function GeneratorsOf(ctx: Context, target: nat): iset<set<nat>>
    requires target < |ctx.cols|
  {
    iset g: set<nat> | IsMinimalGenerator(ctx, target, BinaryPremises(ctx, target), g)
  }

  /** g is a minimal cover of the target: a minimal generator that no other one refines. */
  ghost predicate IsMinimalCover(ctx: Context, target: nat, g: set<nat>)
    requires target < |ctx.cols|
  {
    g in GeneratorsOf(ctx, target) && g <= ctx.Attributes() && !Refined(ctx, GeneratorsOf(ctx, target), g)
  }

  /** The rules of one target are its minimal covers with two attributes or more. */
  ghost predicate IsRuleOf(ctx: Context, f: Implication, target: nat)
    requires target < |ctx.cols|
  {
    |f.premise| > 1 && f.closure == {target} && IsMinimalCover(ctx, target, f.premise)
  }

  ghost predicate IsRule(ctx: Context, f: Implication) {
    exists target: nat :: target < |ctx.cols| && IsRuleOf(ctx, f, target)
  }

  /** Exactly the minimal covers of the targets below n. */
  ghost predicate AreRules(ctx: Context, l: seq<Implication>, n: nat)
    requires n <= |ctx.cols|
  {
    && (forall i | 0 <= i < |l| :: IsRule(ctx, l[i]))
    && (forall target: nat, g: set<nat> | target < n && IsMinimalCover(ctx, target, g)
      && |g| > 1 :: HasRule(l, g, {target}))
  }

  /** A set that generates the target contains a minimal generator. */
  lemma {:induction false} MinimalWithin(ctx: Context, target: nat, binaryPremises: set<nat>, s: set<nat>)
      returns (g: set<nat>)
    requires target < |ctx.cols| && s <= Allowed(ctx, target, binaryPremises) && Generates(ctx, target, s)
    ensures g <= s && IsMinimalGenerator(ctx, target, binaryPremises, g)
    decreases |s|
  {
    if r: set<nat> :| r < s && Generates(ctx, target, r) {
      SubsetCard(r, s);
      g := MinimalWithin(ctx, target, binaryPremises, r);
    } else {
      g := s;
    }
  }

  lemma SingleIsNone(ctx: Context, target: nat, a: nat)
    requires ctx.Valid() && target < |ctx.cols| && !IsFull(ctx, target)
    ensures !IsMinimalGenerator(ctx, target, BinaryPremises(ctx, target), {a})
  {
    if a < |ctx.cols| {
      assert ctx.Extent({a}) == ctx.cols[a];
      assert a == target || a in BinaryPremises(ctx, target) || !Generates(ctx, target, {a});
    }
  }

  /** Generators of an attribute that some object lacks have two attributes or more. */
  lemma NeverSingle(ctx: Context, target: nat, g: set<nat>)
    requires ctx.Valid() && target < |ctx.cols| && !IsFull(ctx, target)
    requires IsMinimalGenerator(ctx, target, BinaryPremises(ctx, target), g)
    ensures |g| > 1
  {
    hide IsMinimalGenerator;
    EmptyGenerator(ctx, target, BinaryPremises(ctx, target), {});
    assert exists o: nat :: o < |ctx.rows| && o !in ctx.cols[target];
    if |g| == 1 {
      var a :| a in g;
      SingleIsNone(ctx, target, a);
      SubsetCard({a}, g);
    }
  }

  lemma NothingSingle(ctx: Context, s: set<nat>, b: nat)
    requires ctx.Valid() && s <= ctx.Attributes() && BinaryClosure(ctx, s) == s
    requires b in ctx.Closure(s) && b !in s
    ensures b < |ctx.cols| && !IsFull(ctx, b) && s <= Allowed(ctx, b, BinaryPremises(ctx, b)) && Generates(ctx, b, s)
  {
    hide Context.Valid, BinaryClosure, IsFull, BinaryPremises, Reaches, Context.Extent;
    NotReached(ctx, s, b);
    forall a | a in s ensures a !in BinaryPremises(ctx, b) {
      NotAPremise(ctx, s, a, b);
    }
  }

  lemma NotAPremise(ctx: Context, s: set<nat>, a: nat, b: nat)
    requires s <= ctx.Attributes() && b < |ctx.cols| && a in s && !Reaches(ctx, s, b)
    ensures !(ctx.cols[a] <= ctx.cols[b]) && a !in BinaryPremises(ctx, b)
  {}

  lemma NotReached(ctx: Context, s: set<nat>, b: nat)
    requires s <= ctx.Attributes() && b < |ctx.cols| && b !in BinaryClosure(ctx, s)
    ensures !IsFull(ctx, b) && !Reaches(ctx, s, b)
  {}

  /** What a set closed under binary implications implies beyond itself, a minimal cover
      inside it implies. */
  lemma CoverExists(ctx: Context, s: set<nat>, b: nat) returns (g: set<nat>)
    requires ctx.Valid() && Clarified(ctx) && s <= ctx.Attributes() && BinaryClosure(ctx, s) == s
    requires b in ctx.Closure(s) && b !in s
    ensures b < |ctx.cols| && IsMinimalCover(ctx, b, g) && |g| > 1 && g <= s
  {
    NothingSingle(ctx, s, b);
    hide IsMinimalGenerator, Refined, Refines, Generates, IsFull, Clarified;
    var premises := BinaryPremises(ctx, b);
    g := MinimalWithin(ctx, b, premises, s);
    var gens := GeneratorsOf(ctx, b);
    if Refined(ctx, gens, g) {
      var h := UnrefinedBelow(ctx, b, premises, gens, g);
      SpanWithin(ctx, s, g);
      RefinesSpan(ctx, h, g);
      g := h;
    }
    NeverSingle(ctx, b, g);
  }

  lemma RefinesSpan(ctx: Context, h: set<nat>, g: set<nat>)
    requires g <= ctx.Attributes() && Refines(ctx, h, g)
    ensures h <= Span(ctx, g)
  {}

  lemma SpanWithin(ctx: Context, s: set<nat>, g: set<nat>)
    requires s <= ctx.Attributes() && g <= s
    ensures Span(ctx, g) <= BinaryClosure(ctx, s)
  {
    forall a | a in Span(ctx, g) ensures Reaches(ctx, s, a) {}
  }

  /** Each rule holds in the context. */
  lemma RuleHolds(ctx: Context, f: Implication, s: set<nat>)
    requires ctx.Valid() && IsRule(ctx, f) && s <= ctx.Attributes()
    ensures f.premise <= ctx.Attributes() && f.closure <= ctx.Attributes() && f.closure <= ctx.Closure(f.premise)
    ensures f.premise <= ctx.Closure(s) ==> f.closure <= ctx.Closure(s)
  {
    var target: nat :| target < |ctx.cols| && IsRuleOf(ctx, f, target);
    assert Generates(ctx, target, f.premise);
    assert f.closure <= ctx.Closure(f.premise);
    if f.premise <= ctx.Closure(s) {
      ClosureExtensive(ctx, s);
      ClosureMonotone(ctx, f.premise, ctx.Closure(s));
      ClosureIdempotent(ctx, s);
    }
  }

  /** The D-basis is ordered-direct, whatever the order within its second part. */
  lemma DBasisIsDirect(ctx: Context, binary: seq<Implication>, rules: seq<Implication>)
    requires ctx.Valid() && Clarified(ctx) && StrictOrder(Above(ctx)) && IsBinaryBasis(ctx, binary)
    requires AreRules(ctx, rules, |ctx.cols|)
    ensures OrderedDirect(ctx, binary + rules)
  {
    forall s: set<nat> | s <= ctx.Attributes() ensures Sweep(binary + rules, s) == ctx.Closure(s) {
      var c := BinaryClosure(ctx, s);
      SweepConcat(binary, rules, s);
      BinarySweep(ctx, binary, s);
      BinaryClosureWithin(ctx, s);
      BinaryClosureIdempotent(ctx, s);
      SameClosure(ctx, s);
      RulesReach(ctx, rules, c);
      RulesWithin(ctx, rules, s, c);
    }
  }

  lemma RulesReach(ctx: Context, rules: seq<Implication>, c: set<nat>)
    requires ctx.Valid() && Clarified(ctx) && AreRules(ctx, rules, |ctx.cols|)
    requires c <= ctx.Attributes() && BinaryClosure(ctx, c) == c
    ensures ctx.Closure(c) <= Sweep(rules, c)
  {
    SweepPrefix(rules, 0, c);
    forall b | b in ctx.Closure(c) && b !in c ensures b in Sweep(rules, c) {
      var g := CoverExists(ctx, c, b);
      assert HasRule(rules, g, {b});
      var i :| 0 <= i < |rules| && rules[i].premise == g && rules[i].closure == {b};
      SweepPrefix(rules[..i], 0, c);
      SweepFires(rules, i, c);
    }
  }

  lemma RulesWithin(ctx: Context, rules: seq<Implication>, s: set<nat>, c: set<nat>)
    requires ctx.Valid() && s <= ctx.Attributes() && c <= ctx.Closure(s)
    requires forall i | 0 <= i < |rules| :: IsRule(ctx, rules[i])
    ensures Sweep(rules, c) <= ctx.Closure(s)
  {
    forall i | 0 <= i < |rules| && rules[i].premise <= ctx.Closure(s) ensures rules[i].closure <= ctx.Closure(s) {
      RuleHolds(ctx, rules[i], s);
    }
    SweepWithin(rules, c, ctx.Closure(s));
  }

  /** The rules of one target. */
  method ComputeNonBinaryRules(ctx: Context, target: nat, premises: set<nat>, closures: seq<set<nat>>)
      returns (rules: seq<Implication>)
    requires ctx.Valid() && Clarified(ctx) && target < |ctx.cols| && AttributeClosures(ctx, closures)
    requires premises == BinaryPremises(ctx, target)
    ensures forall i | 0 <= i < |rules| :: IsRuleOf(ctx, rules[i], target)
    ensures forall g: set<nat> | IsMinimalCover(ctx, target, g) && |g| > 1 :: HasRule(rules, g, {target})
    ensures NoTwins(rules)
  {
    hide IsMinimalGenerator, Refined;
    var gens := ComputeMinimalGenerators(ctx, target, premises);
    GeneratorList(ctx, target, gens);
    var covers := ComputeMinimalCovers(ctx, target, premises, gens, closures);
    rules := [];
    for i := 0 to |covers|
      invariant forall k | 0 <= k < |rules| :: IsRuleOf(ctx, rules[k], target)
      invariant forall g: set<nat> | g in covers[..i] && |g| > 1 :: HasRule(rules, g, {target})
      invariant NoTwins(rules) && forall k | 0 <= k < |rules| :: rules[k].premise in covers[..i]
    {
      assert covers[..i + 1] == covers[..i] + [covers[i]];
      assert covers[i] in covers;
      if |covers[i]| > 1 {
        ghost var before := rules;
        rules := rules + [Implication(covers[i], {target}, {})];
        assert rules[|before|].premise == covers[i];
        forall g: set<nat> | g in covers[..i] && |g| > 1 ensures HasRule(rules, g, {target}) {
          HasRuleKept(before, rules, g, {target});
        }
      }
    }
    assert covers[..|covers|] == covers;
  }

  lemma GeneratorList(ctx: Context, target: nat, gens: seq<set<nat>>)
    requires ctx.Valid() && Clarified(ctx) && target < |ctx.cols| && Distinct(gens)
    requires Missing(ctx, target)
      ==> forall s: set<nat> :: s in gens <==> IsMinimalGenerator(ctx, target, BinaryPremises(ctx, target), s)
    requires !Missing(ctx, target) ==> gens == []
    ensures FilterInput(ctx, target, BinaryPremises(ctx, target), gens)
    ensures forall g ::
        g in gens && !Refined(ctx, Members(gens), g) && |g| > 1 <==> IsMinimalCover(ctx, target, g) && |g| > 1
  {
  }
}
