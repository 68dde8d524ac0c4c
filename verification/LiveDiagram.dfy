/** Hasse diagrams of a changing family: inserting a set between its neighbours, in one go or
    one upper neighbour at a time, and removing one. */
module LiveDiagram {
  import opened FiniteSets
  import opened Graphs
  import opened Reachability

  /** c lies directly below p among the live sets. */
  ghost predicate IsCover(ext: seq<set<nat>>, live: set<nat>, c: nat, p: nat) {
    && c in live && p in live && c < |ext| && p < |ext| && ext[c] < ext[p]
    && forall k | k in live && k < |ext| :: !(ext[c] < ext[k] < ext[p])
  }

  ghost function LowerOf(ext: seq<set<nat>>, live: set<nat>, p: nat): set<nat> {
    set c | c in live && IsCover(ext, live, c, p)
  }

  /** The live sets are distinct, and `lower` holds exactly their lower covers. */
  ghost predicate LiveHasse(ext: seq<set<nat>>, live: set<nat>, lower: seq<set<nat>>) {
    && |lower| == |ext| && live <= Range(|ext|)
    && (forall c, d | c in live && d in live && c != d :: ext[c] != ext[d])
    && forall p | 0 <= p < |ext| :: lower[p] == LowerOf(ext, live, p)
  }

  // ---- insertion ----

  /** The largest live sets inside e. */
  ghost function MaxBelow(ext: seq<set<nat>>, live: set<nat>, e: set<nat>): set<nat> {
    set c | c in live && IsMaxBelow(ext, live, e, c)
  }

  ghost predicate IsMaxBelow(ext: seq<set<nat>>, live: set<nat>, e: set<nat>, c: nat) {
    c < |ext| && ext[c] < e && forall k | k in live && k < |ext| :: !(ext[c] < ext[k] < e)
  }

  /** The smallest live sets around e. */
  ghost function MinAbove(ext: seq<set<nat>>, live: set<nat>, e: set<nat>): set<nat> {
    set p | p in live && IsMinAbove(ext, live, e, p)
  }

  ghost predicate IsMinAbove(ext: seq<set<nat>>, live: set<nat>, e: set<nat>, p: nat) {
    p < |ext| && e < ext[p] && forall k | k in live && k < |ext| :: !(e < ext[k] < ext[p])
  }

  /** The diagram with e drawn below the sets in `done`. */
  ghost function Inserted(lower: seq<set<nat>>, lo: set<nat>, done: set<nat>): (r: seq<set<nat>>)
    ensures |r| == |lower| + 1 && r[|lower|] == lo
    ensures forall p | 0 <= p < |lower| :: r[p] == if p in done then lower[p] - lo + {|lower|} else lower[p]
  {
    seq(|lower|, p requires 0 <= p < |lower| => if p in done then lower[p] - lo + {|lower|} else lower[p]) + [lo]
  }

  /** A cover is broken by e exactly when it leads from below e to above. */
  lemma CoverBroken(ext: seq<set<nat>>, live: set<nat>, e: set<nat>, c: nat, p: nat)
    requires live <= Range(|ext|) && c < |ext| && p < |ext|
    ensures IsCover(ext + [e], live + {|ext|}, c, p) <==> IsCover(ext, live, c, p) && !(ext[c] < e < ext[p])
  {
    var ext', live' := ext + [e], live + {|ext|};
    if IsCover(ext, live, c, p) && !(ext[c] < e < ext[p]) {
      forall k | k in live' && k < |ext'| ensures !(ext'[c] < ext'[k] < ext'[p]) {
        if k < |ext| { assert k in live; }
      }
    }
    if IsCover(ext', live', c, p) {
      forall k | k in live && k < |ext| ensures !(ext[c] < ext[k] < ext[p]) {
        assert k in live' && ext'[k] == ext[k];
      }
      assert ext'[|ext|] == e && |ext| in live';
    }
  }

  lemma BrokenCoverEnds(ext: seq<set<nat>>, live: set<nat>, e: set<nat>, c: nat, p: nat)
    requires live <= Range(|ext|) && IsCover(ext, live, c, p) && ext[c] < e < ext[p]
    ensures c in MaxBelow(ext, live, e) && p in MinAbove(ext, live, e)
  {
    forall k | k in live && k < |ext| ensures !(ext[c] < ext[k] < e) && !(e < ext[k] < ext[p]) {
      if ext[c] < ext[k] < e { Chain(ext[k], e, ext[p]); }
      if e < ext[k] < ext[p] { Chain(ext[c], e, ext[k]); }
    }
  }

  lemma Chain(x: set<nat>, y: set<nat>, z: set<nat>)
    requires x < y < z
    ensures x < z
  {}

  lemma CoverOfNew(ext: seq<set<nat>>, live: set<nat>, e: set<nat>, c: nat)
    requires live <= Range(|ext|) && c < |ext|
    ensures IsCover(ext + [e], live + {|ext|}, c, |ext|) <==> c in MaxBelow(ext, live, e)
    ensures IsCover(ext + [e], live + {|ext|}, |ext|, c) <==> c in MinAbove(ext, live, e)
  {
    var ext', live' := ext + [e], live + {|ext|};
    assert ext'[|ext|] == e;
    if c in MaxBelow(ext, live, e) {
      forall k | k in live' && k < |ext'| ensures !(ext'[c] < ext'[k] < e) {
        if k < |ext| { assert k in live; }
      }
    }
    if c in MinAbove(ext, live, e) {
      forall k | k in live' && k < |ext'| ensures !(e < ext'[k] < ext'[c]) {
        if k < |ext| { assert k in live; }
      }
    }
    if IsCover(ext', live', c, |ext|) {
      forall k | k in live && k < |ext| ensures !(ext[c] < ext[k] < e) {
        assert ext'[k] == ext[k];
      }
    }
    if IsCover(ext', live', |ext|, c) {
      forall k | k in live && k < |ext| ensures !(e < ext[k] < ext[c]) {
        assert ext'[k] == ext[k];
      }
    }
  }

  /** Drawing e between its neighbours, and cutting the edges it replaces, gives the diagram
      of the larger family. */
  lemma InsertHasse(ext: seq<set<nat>>, live: set<nat>, lower: seq<set<nat>>, e: set<nat>)
    requires LiveHasse(ext, live, lower) && forall c | c in live :: ext[c] != e
    ensures LiveHasse(ext + [e], live + {|ext|}, Inserted(lower, MaxBelow(ext, live, e), MinAbove(ext, live, e)))
  {
    var ext', live' := ext + [e], live + {|ext|};
    var lo, up := MaxBelow(ext, live, e), MinAbove(ext, live, e);
    var lower' := Inserted(lower, lo, up);
    hide IsCover, MaxBelow, MinAbove;
    forall p | 0 <= p < |ext'| ensures lower'[p] == LowerOf(ext', live', p) {
      forall c: nat ensures c in lower'[p] <==> c in live' && IsCover(ext', live', c, p) {
        InsertedEdge(ext, live, lower, e, c, p);
      }
    }
    forall c, d | c in live' && d in live' && c != d ensures ext'[c] != ext'[d] {}
  }

  lemma InsertedEdge(ext: seq<set<nat>>, live: set<nat>, lower: seq<set<nat>>, e: set<nat>, c: nat, p: nat)
    requires LiveHasse(ext, live, lower) && p <= |ext|
    ensures var ext', live' := ext + [e], live + {|ext|};
      c in Inserted(lower, MaxBelow(ext, live, e), MinAbove(ext, live, e))[p] <==>
        c in live' && IsCover(ext', live', c, p)
  {
    if p == |ext| {
      if c < |ext| { CoverOfNew(ext, live, e, c); }
    } else if c == |ext| {
      CoverOfNew(ext, live, e, p);
      NotALowerOne(ext, live, lower, p);
    } else if c < |ext| {
      hide MaxBelow, MinAbove;
      CoverBroken(ext, live, e, c, p);
      if IsCover(ext, live, c, p) && ext[c] < e < ext[p] { BrokenCoverEnds(ext, live, e, c, p); }
      if c in MaxBelow(ext, live, e) { BelowIsBelow(ext, live, e, c); }
      if p in MinAbove(ext, live, e) { AboveIsAbove(ext, live, e, p); }
    } else {
      NotALowerOne(ext, live, lower, p);
    }
  }

  lemma NotALowerOne(ext: seq<set<nat>>, live: set<nat>, lower: seq<set<nat>>, p: nat)
    requires LiveHasse(ext, live, lower) && p < |ext|
    ensures forall c | c in lower[p] :: c < |ext|
  {}

  lemma BelowIsBelow(ext: seq<set<nat>>, live: set<nat>, e: set<nat>, c: nat)
    requires c in MaxBelow(ext, live, e)
    ensures c < |ext| && ext[c] < e
  {}

  lemma AboveIsAbove(ext: seq<set<nat>>, live: set<nat>, e: set<nat>, p: nat)
    requires p in MinAbove(ext, live, e)
    ensures p < |ext| && e < ext[p]
  {}

  // ---- removal ----

  /** Some live set other than r lies between x and p. */
  ghost predicate Bypass(ext: seq<set<nat>>, live: set<nat>, r: nat, x: nat, p: nat) {
    exists k :: k in live && k != r && k < |ext| && x < |ext| && p < |ext| && ext[x] < ext[k] < ext[p]
  }

  /** The diagram without r: its children go to those of its parents that nothing else leads
      to. */
  ghost function Removed(ext: seq<set<nat>>, live: set<nat>, lower: seq<set<nat>>, r: nat): (s: seq<set<nat>>)
    requires |lower| == |ext| && r < |ext|
    ensures |s| == |lower|
    ensures forall p | 0 <= p < |s| :: s[p] == if p == r then {} else if r in lower[p]
      then lower[p] - {r} + (set x | x in lower[r] && !Bypass(ext, live, r, x, p)) else lower[p]
  {
    seq(|lower|, p requires 0 <= p < |lower| => if p == r then {} else if r in lower[p]
      then lower[p] - {r} + (set x | x in lower[r] && !Bypass(ext, live, r, x, p)) else lower[p])
  }

  lemma CoverWithout(ext: seq<set<nat>>, live: set<nat>, r: nat, c: nat, p: nat)
    requires r in live && r < |ext| && c != r && p != r
    ensures IsCover(ext, live - {r}, c, p) <==>
      IsCover(ext, live, c, p) || (IsCover(ext, live, c, r) && IsCover(ext, live, r, p) && !Bypass(ext, live, r, c, p))
  {
    if IsCover(ext, live - {r}, c, p) && !IsCover(ext, live, c, p) {
      assert ext[c] < ext[r] < ext[p];
      forall k | k in live && k < |ext| ensures !(ext[c] < ext[k] < ext[r]) && !(ext[r] < ext[k] < ext[p]) {
        if k != r {
          assert k in live - {r};
          if ext[c] < ext[k] < ext[r] { Chain(ext[k], ext[r], ext[p]); }
          if ext[r] < ext[k] < ext[p] { Chain(ext[c], ext[r], ext[k]); }
        }
      }
    }
    if IsCover(ext, live, c, r) && IsCover(ext, live, r, p) && !Bypass(ext, live, r, c, p) {
      Chain(ext[c], ext[r], ext[p]);
    }
  }

  lemma RemoveHasse(ext: seq<set<nat>>, live: set<nat>, lower: seq<set<nat>>, r: nat)
    requires LiveHasse(ext, live, lower) && r in live
    ensures LiveHasse(ext, live - {r}, Removed(ext, live, lower, r))
  {
    var lower' := Removed(ext, live, lower, r);
    hide IsCover, Bypass;
    forall p | 0 <= p < |ext| ensures lower'[p] == LowerOf(ext, live - {r}, p) {
      forall c: nat ensures c in lower'[p] <==> c in live - {r} && IsCover(ext, live - {r}, c, p) {
        RemovedEdge(ext, live, lower, r, c, p);
      }
    }
  }

  lemma RemovedEdge(ext: seq<set<nat>>, live: set<nat>, lower: seq<set<nat>>, r: nat, c: nat, p: nat)
    requires LiveHasse(ext, live, lower) && r in live && p < |ext|
    ensures c in Removed(ext, live, lower, r)[p] <==> c in live - {r} && IsCover(ext, live - {r}, c, p)
  {
    assert r < |ext| && lower[p] == LowerOf(ext, live, p) && lower[r] == LowerOf(ext, live, r);
    if c != r && p != r { CoverWithout(ext, live, r, c, p); }
    EdgesInside(ext, live, lower, p, c);
    EdgesInside(ext, live, lower, r, c);
    EdgesInside(ext, live - {r}, lower, p, c);
  }

  lemma EdgesInside(ext: seq<set<nat>>, live: set<nat>, lower: seq<set<nat>>, p: nat, c: nat)
    ensures IsCover(ext, live, c, p) ==> c in live && p in live && c != p && c < |ext| && p < |ext| && ext[c] < ext[p]
  {}

  // ---- reachability ----

  /** On the way up from c to p there is a cover of c. */
  lemma {:induction false} CoverAbove(ext: seq<set<nat>>, live: set<nat>, c: nat, p: nat) returns (w: nat)
    requires live <= Range(|ext|) && c in live && p in live && ext[c] < ext[p]
    ensures w in live && IsCover(ext, live, c, w) && ext[w] <= ext[p]
    decreases |ext[p]|
  {
    if k :| k in live && k < |ext| && ext[c] < ext[k] < ext[p] {
      SubsetCard(ext[k], ext[p]);
      w := CoverAbove(ext, live, c, k);
    } else {
      w := p;
    }
  }

  /** The edges upwards mirror those downwards. */
  ghost predicate Mirrored(lower: seq<set<nat>>, upper: seq<set<nat>>) {
    && |upper| == |lower| && WellFormed(lower) && WellFormed(upper)
    && forall c, p | 0 <= c < |lower| && 0 <= p < |lower| :: c in lower[p] <==> p in upper[c]
  }

  /** Going up from c by edges that leave r out one meets every live set around c that r does
      not separate from it. */
  lemma {:induction false} UpAvoiding(ext: seq<set<nat>>, live: set<nat>, g: Graph, r: nat, c: nat, p: nat)
    requires live <= Range(|ext|) && |g| >= |ext| && c in live && p in live && c != r && p != r
    requires ext[c] < ext[p] && !(r in live && r < |ext| && ext[c] < ext[r] < ext[p])
    requires forall x, y | x in live && y in live && x != r && y != r && x < |g| && ext[c] <= ext[x]
      && IsCover(ext, live, x, y) :: y in g[x]
    requires forall x, y | x in live && y in live && x != y :: ext[x] != ext[y]
    ensures Reach(g, c, p)
    decreases |ext[p] - ext[c]|
  {
    hide Reach;
    var w := CoverAbove(ext, live, c, p);
    assert w != r;
    ReachEdge(g, c, w);
    if w != p {
      assert ext[w] != ext[p];
      assert ext[p] - ext[w] < ext[p] - ext[c] by { var x :| x in ext[w] && x !in ext[c]; }
      SubsetCard(ext[p] - ext[w], ext[p] - ext[c]);
      UpAvoiding(ext, live, g, r, w, p);
      ReachTransitive(g, c, w, p);
    }
  }

  lemma ReachMirrored(lower: seq<set<nat>>, upper: seq<set<nat>>, c: nat, p: nat)
    requires Mirrored(lower, upper) && c < |lower| && p < |lower|
    ensures Reach(upper, c, p) <==> Reach(lower, p, c)
  {
    if Reach(upper, c, p) { ReachBack(lower, upper, c, p); }
    if Reach(lower, p, c) { ReachBack(upper, lower, p, c); }
  }

  lemma ReachBack(lower: seq<set<nat>>, upper: seq<set<nat>>, c: nat, p: nat)
    requires Mirrored(lower, upper) && c < |lower| && Reach(upper, c, p)
    ensures Reach(lower, p, c)
  {
    var s := set y: nat | y < |lower| && Reach(lower, y, c);
    forall y, z | y in s && z in upper[y] ensures z in s {
      assert y in lower[z];
      ReachEdge(lower, z, y);
      ReachTransitive(lower, z, y, c);
    }
    assert Closed(upper, s) && c in s;
  }

  /** In the diagram one reaches exactly what lies above. */
  lemma ReachUp(ext: seq<set<nat>>, live: set<nat>, lower: seq<set<nat>>, upper: seq<set<nat>>, c: nat, p: nat)
    requires LiveHasse(ext, live, lower) && Mirrored(lower, upper) && c in live
    ensures Reach(upper, c, p) <==> p == c || (p in live && p < |ext| && ext[c] < ext[p])
  {
    if Reach(upper, c, p) {
      var s := set y: nat | y < |ext| && (y == c || (y in live && ext[c] < ext[y]));
      forall y, z | y in s && z in upper[y] ensures z in s {
        assert y in lower[z] && lower[z] == LowerOf(ext, live, z);
      }
      assert Closed(upper, s);
    }
    if p in live && p < |ext| && ext[c] < ext[p] {
      forall x, y | x in live && y in live && x != |ext| && y != |ext| && x < |upper| && IsCover(ext, live, x, y)
        ensures y in upper[x] {
        assert lower[y] == LowerOf(ext, live, y);
      }
      UpAvoiding(ext, live, upper, |ext|, c, p);
    }
  }

  lemma ReachDown(ext: seq<set<nat>>, live: set<nat>, lower: seq<set<nat>>, upper: seq<set<nat>>, p: nat, c: nat)
    requires LiveHasse(ext, live, lower) && Mirrored(lower, upper) && p in live
    ensures Reach(lower, p, c) <==> c == p || (c in live && c < |ext| && ext[c] < ext[p])
  {
    if Reach(lower, p, c) {
      var s := set y: nat | y < |ext| && (y == p || (y in live && ext[y] < ext[p]));
      forall y, z | y in s && z in lower[y] ensures z in s {
        assert lower[y] == LowerOf(ext, live, y);
      }
      assert Closed(lower, s);
    }
    if c in live && c < |ext| && ext[c] < ext[p] {
      ReachUp(ext, live, lower, upper, c, p);
      ReachMirrored(lower, upper, c, p);
    }
  }
}
