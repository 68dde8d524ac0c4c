/** Reachability in a directed graph and strongly connected components. */
module Reachability {
  import opened FiniteSets
  import opened Graphs

  ghost predicate IsPath(g: Graph, p: seq<nat>, u: nat, v: nat) {
    && p != [] && p[0] == u && p[|p| - 1] == v
    && (forall k | 0 <= k < |p| :: p[k] < |g|)
    && forall k | 0 <= k < |p| - 1 :: p[k + 1] in g[p[k]]
  }

  /** No edge leads out of s. */
  ghost predicate Closed(g: Graph, s: set<nat>) {
    forall u | u in s && u < |g| :: g[u] <= s
  }

  /** v lies in everything closed that u lies in; see ReachIsPath. */
  ghost predicate Reach(g: Graph, u: nat, v: nat) {
    forall s: set<nat> | u in s && Closed(g, s) :: v in s
  }

  lemma ReachEdge(g: Graph, u: nat, v: nat)
    requires u < |g| && v in g[u]
    ensures Reach(g, u, v)
  {}

  lemma ReachTransitive(g: Graph, u: nat, v: nat, w: nat)
    requires Reach(g, u, v) && Reach(g, v, w)
    ensures Reach(g, u, w)
  {}

  ghost predicate HasPath(g: Graph, u: nat, v: nat) {
    exists p :: IsPath(g, p, u, v)
  }

  /** A vertex is reachable exactly when a path leads to it. */
  lemma ReachIsPath(g: Graph, u: nat, v: nat)
    requires WellFormed(g) && u < |g|
    ensures Reach(g, u, v) <==> HasPath(g, u, v)
  {
    if Reach(g, u, v) {
      var s := set w: nat | w < |g| && HasPath(g, u, w);
      assert IsPath(g, [u], u, u);
      forall w, x | w in s && x in g[w] ensures x in s {
        var p :| IsPath(g, p, u, w);
        assert IsPath(g, p + [x], u, x);
      }
      assert Closed(g, s);
    }
    if p :| IsPath(g, p, u, v) {
      PathReaches(g, p, u, v);
    }
  }

  lemma {:induction false} PathReaches(g: Graph, p: seq<nat>, u: nat, v: nat)
    requires IsPath(g, p, u, v)
    ensures Reach(g, u, v)
    decreases |p|
  {
    if |p| > 1 {
      var w := p[|p| - 2];
      PathReaches(g, p[..|p| - 1], u, w);
      ReachEdge(g, w, v);
      ReachTransitive(g, u, w, v);
    }
  }

  ghost predicate Connected(g: Graph, u: nat, v: nat) {
    Reach(g, u, v) && Reach(g, v, u)
  }

  /** A strongly connected component: some vertex with all vertices connected to it. */
  ghost predicate IsComponent(g: Graph, c: set<nat>) {
    && c != {} && c <= Range(|g|)
    && forall u, v: nat | u in c && v < |g| :: v in c <==> Connected(g, u, v)
  }

  ghost function Reachable(g: Graph, u: nat): set<nat> {
    set v: nat | v < |g| && Reach(g, u, v)
  }

  /** Without a component of two vertices or more every edge, loops aside, leads to a
      vertex that reaches less. */
  lemma EdgeDescends(g: Graph, u: nat, v: nat)
    requires WellFormed(g) && u < |g| && v in g[u] && v != u
    requires forall c | IsComponent(g, c) :: |c| <= 1
    ensures v < |g| && |Reachable(g, v)| < |Reachable(g, u)|
  {
    ReachEdge(g, u, v);
    if Reach(g, v, u) {
      ComponentOf(g, u, v);
      assert false;
    }
    forall w | w in Reachable(g, v) ensures w in Reachable(g, u) {
      ReachTransitive(g, u, v, w);
    }
    assert u in Reachable(g, u) && u !in Reachable(g, v);
    SubsetCard(Reachable(g, v), Reachable(g, u));
  }

  lemma ComponentOf(g: Graph, u: nat, v: nat)
    requires u < |g| && v < |g| && Connected(g, u, v) && u != v
    ensures exists c :: IsComponent(g, c) && |c| > 1
  {
    var c := set w: nat | w < |g| && Connected(g, u, w);
    assert u in c && v in c;
    SubsetCard({u, v}, c);
    forall x, w: nat | x in c && w < |g| ensures w in c <==> Connected(g, x, w) {
      ConnectedTransitive(g, u, x, w);
      ConnectedTransitive(g, x, u, w);
    }
    assert IsComponent(g, c);
  }

  lemma ConnectedTransitive(g: Graph, u: nat, v: nat, w: nat)
    requires Connected(g, u, v)
    ensures Connected(g, v, w) ==> Connected(g, u, w)
  {
    if Connected(g, v, w) {
      ReachTransitive(g, u, v, w);
      ReachTransitive(g, w, v, u);
    }
  }

  /** If no successor of u leads to v, neither does u. */
  lemma Stuck(g: Graph, u: nat, v: nat)
    requires WellFormed(g) && u < |g| && v != u && forall w | w in g[u] && w != u :: !Reach(g, w, v)
    ensures !Reach(g, u, v)
  {
    var s := set x: nat | x < |g| && (x == u || !Reach(g, x, v));
    forall x, y | x in s && y in g[x] ensures y in s {
      if y != u && Reach(g, y, v) {
        ReachEdge(g, x, y);
        ReachTransitive(g, x, y, v);
      }
    }
    assert Closed(g, s) && v !in s;
  }

  /** A vertex that is reached but is no successor is reached from a successor. */
  lemma StepTowards(g: Graph, u: nat, v: nat) returns (w: nat)
    requires WellFormed(g) && u < |g| && Reach(g, u, v) && v != u && v !in g[u]
    ensures w in g[u] && w < |g| && w != u && w != v && Reach(g, w, v)
  {
    hide Reach;
    if forall x | x in g[u] && x != u :: !Reach(g, x, v) {
      Stuck(g, u, v);
    }
    w :| w in g[u] && w != u && Reach(g, w, v);
  }
}
