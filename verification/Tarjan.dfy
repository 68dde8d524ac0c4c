/** Tarjan's algorithm, used to find the cycles among the attributes of a basis. */
module Tarjan {
  import opened FiniteSets
  import opened FormalContext
  import opened Implications
  import opened Graphs
  import opened Reachability
  import Derivation

  // ---- invariants ----

  /** The vertices whose component is complete: numbered and off the stack. */
  ghost function Done(index: seq<int>, stack: seq<nat>): set<nat> {
    set u: nat | u < |index| && index[u] >= 0 && u !in stack
  }

  ghost function White(index: seq<int>): set<nat> {
    set u: nat | u < |index| && index[u] < 0
  }

  /** Numbers below `count` are in use, and they increase along the stack. */
  ghost predicate StackOk(index: seq<int>, stack: seq<nat>, count: int) {
    && count >= 0 && (forall u | 0 <= u < |index| :: -1 <= index[u] < count)
    && (forall i | 0 <= i < |stack| :: stack[i] < |index| && index[stack[i]] >= 0)
    && (forall i, j | 0 <= i < j < |stack| :: index[stack[i]] < index[stack[j]])
  }

  /** Only the vertices still being explored (grey) have edges to unnumbered ones. */
  ghost predicate NoneSkipped(g: Graph, index: seq<int>, grey: set<nat>)
    requires WellFormed(g) && |g| == |index|
  {
    forall u, w | 0 <= u < |g| && index[u] >= 0 && u !in grey && w in g[u] :: index[w] >= 0
  }

  ghost predicate UpTheStack(g: Graph, stack: seq<nat>) {
    forall i, j | 0 <= i <= j < |stack| :: Reach(g, stack[i], stack[j])
  }

  /** v can get back to a grey vertex no younger than itself. */
  ghost predicate ToGrey(g: Graph, index: seq<int>, grey: set<nat>, v: nat)
    requires v < |index|
  {
    exists x :: x in grey && x < |index| && index[x] <= index[v] && Reach(g, v, x)
  }

  ghost predicate BackToGrey(g: Graph, index: seq<int>, stack: seq<nat>, grey: set<nat>) {
    forall i | 0 <= i < |stack| :: stack[i] < |index| && ToGrey(g, index, grey, stack[i])
  }

  /** Between two calls. */
  ghost predicate Consistent(g: Graph, index: seq<int>, stack: seq<nat>, count: int, grey: set<nat>) {
    && WellFormed(g) && |g| == |index| && StackOk(index, stack, count) && grey <= ToSet(stack)
    && Closed(g, Done(index, stack)) && NoneSkipped(g, index, grey)
    && UpTheStack(g, stack) && BackToGrey(g, index, stack, grey)
  }

  /** The components with at least two vertices among the completed ones, each once. */
  ghost predicate ListsComponents(g: Graph, done: set<nat>, sccs: seq<set<nat>>) {
    Distinct(sccs) && forall c :: c in sccs <==> IsComponent(g, c) && |c| > 1 && c <= done
  }

  /** What a call leaves as it was: numbers are final, and nothing returns to the stack. */
  ghost predicate Grown(index: seq<int>, stack: seq<nat>, index': seq<int>, stack': seq<nat>) {
    && |index'| == |index| && stack <= stack'
    && forall u: nat | u < |index| && index[u] >= 0 :: index'[u] == index[u] && (u in stack' ==> u in stack)
  }

  /** v reaches the vertex on the stack whose number is low. */
  ghost predicate Anchor(g: Graph, index: seq<int>, stack: seq<nat>, v: nat, low: int) {
    exists y :: y in stack && y < |index| && index[y] == low && Reach(g, v, y)
  }

  /** No edge from the part of the stack above `base` to `base` goes below low. */
  ghost predicate NoLower(g: Graph, index: seq<int>, base: seq<nat>, stack: seq<nat>, low: int)
    requires base <= stack
  {
    forall i, y: nat | |base| <= i < |stack| && stack[i] < |g| && y in g[stack[i]] && y in base && y < |index| ::
      low <= index[y]
  }

  /** What a call for v has found out. */
  ghost predicate Explored(g: Graph, index: seq<int>, low: int, base: seq<nat>, stack: seq<nat>, v: nat) {
    && base <= stack && v < |index| && 0 <= low <= index[v]
    && (v in stack ==> Anchor(g, index, stack, v, low)) && (v !in stack ==> low == index[v])
    && NoLower(g, index, base, stack, low)
  }

  /** Half way through the successors of v. */
  ghost predicate Exploring(g: Graph, index: seq<int>, low: int, base: seq<nat>, stack: seq<nat>, v: nat, k: nat) {
    && base + [v] <= stack && v < |index| == |g| && WellFormed(g) && 0 <= low <= index[v]
    && Anchor(g, index, stack, v, low) && NoLower(g, index, base + [v], stack, low)
    && forall w | w in g[v] && w < k :: index[w] >= 0 && (w in stack ==> low <= index[w])
  }

  // ---- steps ----

  /** Numbering a new vertex and pushing it. */
  lemma Entered(g: Graph, index: seq<int>, stack: seq<nat>, count: int, grey: set<nat>, v: nat)
    requires Consistent(g, index, stack, count, grey) && v < |g| && index[v] < 0
    requires forall x | x in grey :: Reach(g, x, v)
    ensures Consistent(g, index[v := count], stack + [v], count + 1, grey + {v})
    ensures Grown(index, stack, index[v := count], stack + [v])
    ensures Exploring(g, index[v := count], count, stack, stack + [v], v, 0)
    ensures Done(index[v := count], stack + [v]) == Done(index, stack)
  {
    hide Reach, Closed, UpTheStack, BackToGrey;
    var index', stack', grey' := index[v := count], stack + [v], grey + {v};
    ToSetAppend(stack, v);
    EnteredStack(index, stack, count, v);
    EnteredUp(g, index, stack, grey, v);
    EnteredBack(g, index, stack, count, grey, v);
    ReachSelf(g, v);
    assert v in stack';
  }

  lemma ReachSelf(g: Graph, v: nat)
    ensures Reach(g, v, v)
  {}

  lemma EnteredStack(index: seq<int>, stack: seq<nat>, count: int, v: nat)
    requires StackOk(index, stack, count) && v < |index| && index[v] < 0
    ensures StackOk(index[v := count], stack + [v], count + 1)
    ensures Done(index[v := count], stack + [v]) == Done(index, stack)
  {
    ToSetAppend(stack, v);
    assert forall i | 0 <= i < |stack| :: stack[i] != v;
  }

  lemma EnteredUp(g: Graph, index: seq<int>, stack: seq<nat>, grey: set<nat>, v: nat)
    requires UpTheStack(g, stack) && BackToGrey(g, index, stack, grey) && v < |index|
    requires forall x | x in grey :: Reach(g, x, v)
    ensures UpTheStack(g, stack + [v])
  {
    hide Reach;
    var stack' := stack + [v];
    forall i, j | 0 <= i <= j < |stack'| ensures Reach(g, stack'[i], stack'[j]) {
      if i < |stack| == j {
        assert ToGrey(g, index, grey, stack[i]);
        var x :| x in grey && x < |index| && index[x] <= index[stack[i]] && Reach(g, stack[i], x);
        ReachTransitive(g, stack[i], x, v);
      } else if i == j {
        ReachSelf(g, stack'[i]);
      }
    }
  }

  lemma EnteredBack(g: Graph, index: seq<int>, stack: seq<nat>, count: int, grey: set<nat>, v: nat)
    requires StackOk(index, stack, count) && grey <= ToSet(stack) && v < |index| && index[v] < 0
    requires BackToGrey(g, index, stack, grey)
    ensures BackToGrey(g, index[v := count], stack + [v], grey + {v})
  {
    hide Reach, ToGrey;
    var index', stack', grey' := index[v := count], stack + [v], grey + {v};
    forall x | x in grey ensures x < |index| && index'[x] == index[x] {
      assert x in ToSet(stack);
    }
    forall i | 0 <= i < |stack'| ensures ToGrey(g, index', grey', stack'[i]) {
      if i < |stack| {
        ToGreyKept(g, index, grey, index', grey', stack[i]);
      } else {
        GreySelf(g, index', grey', v);
      }
    }
  }

  lemma GreySelf(g: Graph, index: seq<int>, grey: set<nat>, v: nat)
    requires v in grey && v < |index|
    ensures ToGrey(g, index, grey, v)
  {
    ReachSelf(g, v);
  }

  lemma ToGreyKept(g: Graph, index: seq<int>, grey: set<nat>, index': seq<int>, grey': set<nat>, u: nat)
    requires u < |index| == |index'| && ToGrey(g, index, grey, u) && grey <= grey' && index'[u] == index[u]
    requires forall x | x in grey && x < |index| :: index'[x] == index[x]
    ensures ToGrey(g, index', grey', u)
  {
    hide Reach;
    var x :| x in grey && x < |index| && index[x] <= index[u] && Reach(g, u, x);
    assert x in grey';
  }

  /** After the call for the unnumbered successor w. */
  lemma Returned(g: Graph, index: seq<int>, stack: seq<nat>, count: int, low: int, index': seq<int>, stack': seq<nat>,
                 low': int,
                 base: seq<nat>, v: nat, w: nat)
    requires Exploring(g, index, low, base, stack, v, w) && StackOk(index, stack, count)
    requires w in g[v] && w < |g| && Grown(index, stack, index', stack')
    requires Explored(g, index', low', stack, stack', w) && index'[w] >= count
    ensures Exploring(g, index', if low' < low then low' else low, base, stack', v, w + 1)
  {
    hide Reach, Anchor, NoLower;
    ReturnedAnchor(g, index, stack, low, index', stack', low', v, w);
    ReturnedNoLower(g, index, stack, low, index', stack', low', base + [v]);
  }

  lemma ReturnedAnchor(g: Graph, index: seq<int>, stack: seq<nat>, low: int, index': seq<int>, stack': seq<nat>,
                       low': int,
                       v: nat, w: nat)
    requires Grown(index, stack, index', stack') && Anchor(g, index, stack, v, low) && 0 <= low
    requires low' < low ==> Anchor(g, index', stack', w, low')
    requires v < |g| && w in g[v]
    ensures Anchor(g, index', stack', v, if low' < low then low' else low)
  {
    hide Reach;
    if low' < low {
      var y :| y in stack' && y < |index'| && index'[y] == low' && Reach(g, w, y);
      ReachEdge(g, v, w);
      ReachTransitive(g, v, w, y);
    } else {
      var y :| y in stack && y < |index| && index[y] == low && Reach(g, v, y);
      assert y in stack';
    }
  }

  lemma ReturnedNoLower(g: Graph, index: seq<int>, stack: seq<nat>, low: int, index': seq<int>, stack': seq<nat>,
                        low': int,
                        base: seq<nat>)
    requires Grown(index, stack, index', stack') && base <= stack && |g| == |index|
    requires forall i | 0 <= i < |stack| :: stack[i] < |index| && index[stack[i]] >= 0
    requires NoLower(g, index, base, stack, low) && NoLower(g, index', stack, stack', low')
    ensures NoLower(g, index', base, stack', if low' < low then low' else low)
  {
    var least := if low' < low then low' else low;
    forall i, y: nat | |base| <= i < |stack'| && stack'[i] < |g| && y in g[stack'[i]] && y in base && y < |index'|
      ensures least <= index'[y]
    {
      assert y in stack;
      if i < |stack| {
        assert stack'[i] == stack[i];
      }
    }
  }

  /** A successor that already has a number. */
  lemma Looked(g: Graph, index: seq<int>, stack: seq<nat>, low: int, base: seq<nat>, v: nat, w: nat)
    requires Exploring(g, index, low, base, stack, v, w) && w in g[v] && index[w] >= 0
    ensures Exploring(g, index, if w in stack && index[w] < low then index[w] else low, base, stack, v, w + 1)
  {
    hide Reach;
    if w in stack && index[w] < low {
      ReachEdge(g, v, w);
      assert Anchor(g, index, stack, v, index[w]);
    }
  }

  // ---- leaving a vertex ----

  /** Where v stands on the stack. */
  lemma Divide(index: seq<int>, stack: seq<nat>, count: int, base: seq<nat>, v: nat)
    requires StackOk(index, stack, count) && base + [v] <= stack
    ensures stack == base + stack[|base|..] && stack[|base|] == v && StackOk(index, base, count)
    ensures forall u | u in base :: u < |index| && 0 <= index[u] < index[v]
    ensures forall u | u in stack[|base|..] :: u < |index| && index[v] <= index[u]
    ensures Done(index, base) == Done(index, stack) + ToSet(stack[|base|..])
  {
    var rest := stack[|base|..];
    assert forall i | 0 <= i < |base| :: base[i] == stack[i];
    assert forall i | 0 <= i < |rest| :: rest[i] == stack[|base| + i];
    assert (base + [v])[|base|] == v;
    forall u ensures u in stack <==> u in base || u in rest {
      assert stack == base + rest;
    }
  }

  /** v is the only grey vertex of its own part of the stack. */
  lemma NoLongerGrey(g: Graph, index: seq<int>, stack: seq<nat>, grey: set<nat>, v: nat, low: int, u: nat)
    requires u < |index| && v < |index| && v in stack && ToGrey(g, index, grey + {v}, u)
    requires index[u] < index[v]
      || (low < index[v] && Anchor(g, index, stack, v, low) && BackToGrey(g, index, stack, grey + {v}))
    ensures ToGrey(g, index, grey, u)
  {
    hide Reach;
    var x :| x in grey + {v} && x < |index| && index[x] <= index[u] && Reach(g, u, x);
    if x !in grey {
      var y :| y in stack && y < |index| && index[y] == low && Reach(g, v, y);
      assert ToGrey(g, index, grey + {v}, y);
      var z :| z in grey + {v} && z < |index| && index[z] <= index[y] && Reach(g, y, z);
      ReachTransitive(g, u, v, y);
      ReachTransitive(g, u, y, z);
      assert z in grey;
    }
  }

  lemma StillNoneSkipped(g: Graph, index: seq<int>, stack: seq<nat>, low: int, grey: set<nat>, base: seq<nat>, v: nat)
    requires WellFormed(g) && |g| == |index| && NoneSkipped(g, index, grey + {v})
      && Exploring(g, index, low, base, stack, v, |g|)
    ensures NoneSkipped(g, index, grey)
  {
    forall u, w | 0 <= u < |g| && index[u] >= 0 && u !in grey && w in g[u] ensures index[w] >= 0 {
      assert u == v || u !in grey + {v};
    }
  }

  /** No edge from v's part of the stack to the rest goes below low, v's own included. */
  lemma NoLowerAtAll(g: Graph, index: seq<int>, stack: seq<nat>, low: int, base: seq<nat>, v: nat)
    requires Exploring(g, index, low, base, stack, v, |g|)
    ensures NoLower(g, index, base, stack, low)
  {
    hide Reach, Anchor;
    forall i, y: nat | |base| <= i < |stack| && stack[i] < |g| && y in g[stack[i]] && y in base && y < |index|
      ensures low <= index[y]
    {
      assert y in base + [v];
      var k :| 0 <= k < |base| && base[k] == y;
      assert stack[k] == y;
      if i == |base| {
        assert stack[i] == (base + [v])[i];
      }
    }
  }

  /** v has a way back below itself: it stays on the stack, no longer grey. */
  lemma Stays(g: Graph, index: seq<int>, stack: seq<nat>, count: int, low: int, grey: set<nat>, base: seq<nat>, v: nat)
    requires Consistent(g, index, stack, count, grey + {v}) && Exploring(g, index, low, base, stack, v, |g|)
    requires low < index[v]
    ensures Consistent(g, index, stack, count, grey) && Explored(g, index, low, base, stack, v)
  {
    hide Reach, Anchor, ToGrey, NoLower, Closed, UpTheStack;
    StillNoneSkipped(g, index, stack, low, grey, base, v);
    NoLowerAtAll(g, index, stack, low, base, v);
    Divide(index, stack, count, base, v);
    forall i | 0 <= i < |stack| ensures ToGrey(g, index, grey, stack[i]) {
      NoLongerGrey(g, index, stack, grey, v, low, stack[i]);
    }
  }

  /** All successors are done and v has no way back below itself: what is on the stack
      from v on is complete. */
  lemma CutOff(g: Graph, index: seq<int>, stack: seq<nat>, count: int, grey: set<nat>, base: seq<nat>, v: nat)
    requires Consistent(g, index, stack, count, grey + {v}) && Exploring(g, index, index[v], base, stack, v, |g|)
    requires grey <= ToSet(base)
    ensures Consistent(g, index, base, count, grey)
    ensures Explored(g, index, index[v], base, base, v)
  {
    hide Reach, Anchor, ToGrey, NoLower;
    StillNoneSkipped(g, index, stack, index[v], grey, base, v);
    Divide(index, stack, count, base, v);
    ClosedOff(g, index, stack, count, grey, base, v);
    hide Closed;
    assert forall i | 0 <= i < |base| :: base[i] == stack[i];
    forall i | 0 <= i < |base| ensures ToGrey(g, index, grey, base[i]) {
      NoLongerGrey(g, index, stack, grey, v, 0, base[i]);
    }
    NothingAbove(g, index, base, index[v]);
  }

  lemma NothingAbove(g: Graph, index: seq<int>, base: seq<nat>, low: int)
    ensures NoLower(g, index, base, base, low)
  {}

  lemma ClosedOff(g: Graph, index: seq<int>, stack: seq<nat>, count: int, grey: set<nat>, base: seq<nat>, v: nat)
    requires Consistent(g, index, stack, count, grey + {v}) && Exploring(g, index, index[v], base, stack, v, |g|)
    requires grey <= ToSet(base)
    ensures Closed(g, Done(index, base))
  {
    hide Reach, Anchor, ToGrey, UpTheStack, BackToGrey, NoLower, NoneSkipped;
    NoLowerAtAll(g, index, stack, index[v], base, v);
    Divide(index, stack, count, base, v);
    StillNoneSkipped(g, index, stack, index[v], grey, base, v);
    var rest := stack[|base|..];
    forall u, w | u in Done(index, base) && w in g[u] ensures w in Done(index, base) {
      if u in Done(index, stack) {
        assert w in Done(index, stack);
      } else {
        var i :| 0 <= i < |rest| && rest[i] == u;
        LeadsUp(g, index, stack, index[v], grey, base, |base| + i, w);
      }
    }
  }

  lemma LeadsUp(g: Graph, index: seq<int>, stack: seq<nat>, low: int, grey: set<nat>, base: seq<nat>, i: nat, w: nat)
    requires WellFormed(g) && |g| == |index| && base <= stack && |base| <= i < |stack| && stack[i] < |g|
      && w in g[stack[i]]
    requires NoneSkipped(g, index, grey) && NoLower(g, index, base, stack, low) && index[stack[i]] >= 0
    requires stack[i] !in grey && forall u | u in base :: u < |index| && index[u] < low
    ensures w < |g| && index[w] >= 0 && w !in base
  {}

  /** Whatever is on the stack from v on is connected to v. */
  lemma ConnectedToRoot(g: Graph, index: seq<int>, stack: seq<nat>, grey: set<nat>, k: nat, v: nat, i: nat)
    requires UpTheStack(g, stack) && BackToGrey(g, index, stack, grey + {v}) && k <= i < |stack| && stack[k] == v
    requires forall x | x in grey :: Reach(g, x, v)
    ensures Connected(g, stack[i], v)
  {
    hide Reach;
    assert Reach(g, stack[k], stack[i]);
    assert ToGrey(g, index, grey + {v}, stack[i]);
    var x :| x in grey + {v} && x < |index| && index[x] <= index[stack[i]] && Reach(g, stack[i], x);
    if x != v { ReachTransitive(g, stack[i], x, v); }
  }

  lemma IsCutOff(g: Graph, index: seq<int>, stack: seq<nat>, count: int, grey: set<nat>, base: seq<nat>, v: nat)
    requires Consistent(g, index, stack, count, grey + {v}) && Exploring(g, index, index[v], base, stack, v, |g|)
    requires grey <= ToSet(base) && forall x | x in grey :: Reach(g, x, v)
    ensures IsComponent(g, ToSet(stack[|base|..])) && ToSet(stack[|base|..]) !! Done(index, stack)
  {
    hide Reach, Anchor, NoLower, NoneSkipped, UpTheStack, BackToGrey, Closed, Connected;
    var rest := stack[|base|..];
    var c := ToSet(rest);
    Divide(index, stack, count, base, v);
    assert v == rest[0] && v in c;
    forall u | u in c ensures Connected(g, u, v) {
      var i :| 0 <= i < |rest| && rest[i] == u;
      ConnectedToRoot(g, index, stack, grey, |base|, v, |base| + i);
    }
    ClosedOff(g, index, stack, count, grey, base, v);
    forall u, w: nat | u in c && w < |g| ensures w in c <==> Connected(g, u, w) {
      if w in c {
        ThroughRoot(g, u, v, w);
      }
      if Connected(g, u, w) {
        ConnectedStays(g, u, w, Done(index, base));
        ConnectedStays(g, w, u, Done(index, stack));
        assert u !in Done(index, stack);
      }
    }
  }

  lemma Completed(g: Graph, index: seq<int>, stack: seq<nat>, count: int, grey: set<nat>, base: seq<nat>, v: nat)
    requires Consistent(g, index, stack, count, grey + {v}) && Exploring(g, index, index[v], base, stack, v, |g|)
    requires grey <= ToSet(base) && forall x | x in grey :: Reach(g, x, v)
    ensures Consistent(g, index, base, count, grey)
    ensures Explored(g, index, index[v], base, base, v)
    ensures IsComponent(g, ToSet(stack[|base|..])) && ToSet(stack[|base|..]) !! Done(index, stack)
    ensures Done(index, base) == Done(index, stack) + ToSet(stack[|base|..])
  {
    hide Reach, Anchor, NoLower, NoneSkipped, UpTheStack, BackToGrey, Closed, Connected, IsComponent, Explored;
    CutOff(g, index, stack, count, grey, base, v);
    IsCutOff(g, index, stack, count, grey, base, v);
    Divide(index, stack, count, base, v);
  }

  lemma ThroughRoot(g: Graph, u: nat, v: nat, w: nat)
    requires Connected(g, u, v) && Connected(g, w, v)
    ensures Connected(g, u, w)
  {
    ConnectedTransitive(g, u, v, w);
  }

  lemma ConnectedStays(g: Graph, u: nat, w: nat, s: set<nat>)
    requires Closed(g, s)
    ensures Connected(g, u, w) && u in s ==> w in s
    ensures Connected(g, w, u) && u in s ==> w in s
  {}

  /** Components are equal or disjoint: what is newly complete is the new component. */
  lemma ListsNext(g: Graph, done: set<nat>, c: set<nat>, sccs: seq<set<nat>>)
    requires ListsComponents(g, done, sccs) && IsComponent(g, c) && c !! done
    ensures ListsComponents(g, done + c, if |c| > 1 then sccs + [c] else sccs)
  {
    hide Reach;
    forall d | IsComponent(g, d) ensures d <= done + c <==> d <= done || d == c {
      if d <= done + c && !(d <= done) {
        var x :| x in d && x in c;
        forall w | w in d + c ensures w in d && w in c {
          assert w in c <==> Connected(g, x, w);
          assert w in d <==> Connected(g, x, w);
        }
      }
    }
    assert c !in sccs;
  }

  lemma FewerWhite(index: seq<int>, index': seq<int>, v: nat)
    requires |index| == |index'| && forall u: nat | u < |index| && index[u] >= 0 :: index'[u] == index[u]
    requires v < |index| && index[v] < 0 <= index'[v]
    ensures |White(index')| < |White(index)|
  {
    assert v in White(index) && v !in White(index');
    SubsetCard(White(index'), White(index));
  }

  lemma NotMoreWhite(index: seq<int>, stack: seq<nat>, index': seq<int>, stack': seq<nat>)
    requires Grown(index, stack, index', stack')
    ensures |White(index')| <= |White(index)|
  {
    SubsetCard(White(index'), White(index));
  }

  /** What the methods need to know of a consistent state. */
  lemma Basics(g: Graph, index: seq<int>, stack: seq<nat>, count: int, grey: set<nat>)
    requires Consistent(g, index, stack, count, grey)
    ensures WellFormed(g) && |g| == |index| && count >= 0 && grey <= ToSet(stack) && NoRepeats(stack)
    ensures StackOk(index, stack, count)
    ensures forall u | 0 <= u < |index| :: index[u] < count
    ensures forall u | u in stack :: u < |g| && index[u] >= 0
  {
    forall i, j | 0 <= i < j < |stack| ensures stack[i] != stack[j] {
      assert index[stack[i]] < index[stack[j]];
    }
  }

  lemma ExploringBasics(g: Graph, index: seq<int>, low: int, base: seq<nat>, stack: seq<nat>, v: nat, k: nat)
    requires Exploring(g, index, low, base, stack, v, k)
    ensures base + [v] <= stack && v < |index| == |g| && 0 <= low <= index[v]
  {}

  // ---- the algorithm ----

  class TarjanState {
    const adj: seq<set<nat>>
    const index: array<int>
    const lowlink: array<int>
    const onStack: array<bool>
    var stack: seq<nat>
    var currentIndex: int
    var sccs: seq<set<nat>>

    ghost predicate Valid(grey: set<nat>)
      reads this, index, onStack
    {
      && index.Length == lowlink.Length == onStack.Length == |adj| && index != lowlink
      && Consistent(adj, index[..], stack, currentIndex, grey)
      && (forall u: nat | u < |adj| :: onStack[u] <==> u in stack)
      && ListsComponents(adj, Done(index[..], stack), sccs)
    }

    constructor (adj: seq<set<nat>>)
      requires WellFormed(adj)
      ensures Valid({}) && this.adj == adj && stack == [] && (forall u | 0 <= u < |adj| :: index[u] < 0)
      ensures fresh(index) && fresh(lowlink) && fresh(onStack)
    {
      this.adj := adj;
      index := new int[|adj|](u => -1);
      lowlink := new int[|adj|](u => 0);
      onStack := new bool[|adj|](u => false);
      stack, currentIndex, sccs := [], 0, [];
      new;
      assert Done(index[..], stack) == {};
    }

    /** The numbers given before the call stand, and so do the low links of all but v. */
    twostate predicate Kept(v: nat)
      reads this, index, lowlink
    {
      && index.Length == lowlink.Length == |adj|
      && Grown(old(index[..]), old(stack), index[..], stack)
      && forall u: nat | u < |adj| && u != v && old(index[u]) >= 0 :: lowlink[u] == old(lowlink[u])
    }

    /** Numbers everything reachable from v that has no number, and lists the components
        completed on the way. */
    method StrongConnect(v: nat, ghost grey: set<nat>)
      requires Valid(grey) && v < |adj| && index[v] < 0 && forall x | x in grey :: Reach(adj, x, v)
      modifies this, index, lowlink, onStack
      ensures Valid(grey) && Kept(v) && index[v] >= old(currentIndex)
      ensures Explored(adj, index[..], lowlink[v], old(stack), stack, v)
      decreases |White(index[..])|, 0
    {
      hide Consistent, ListsComponents, Reach, Exploring, Explored, Done, StackOk;
      Basics(adj, index[..], stack, currentIndex, grey);
      ghost var base, grey' := stack, grey + {v};
      Enter(v, grey);
      label entered:
      FewerWhite(old(index[..]), index[..], v);
      for w := 0 to |adj|
        invariant Valid(grey') && Kept(v) && index[v] == old(currentIndex)
        invariant Exploring(adj, index[..], lowlink[v], base, stack, v, w)
        invariant Grown(old@entered(index[..]), old@entered(stack), index[..], stack)
      {
        if w in adj[v] {
          NotMoreWhite(old@entered(index[..]), old@entered(stack), index[..], stack);
          ReachSelf(adj, v);
          Look(v, w, grey', base);
        } else {
          Skip(adj, index[..], lowlink[v], base, stack, v, w);
        }
      }
      Leave(v, grey, base);
    }

    method Enter(v: nat, ghost grey: set<nat>)
      requires Valid(grey) && v < |adj| && index[v] < 0 && forall x | x in grey :: Reach(adj, x, v)
      modifies this, index, lowlink, onStack
      ensures Valid(grey + {v}) && Kept(v) && index[v] == old(currentIndex) >= 0
      ensures Exploring(adj, index[..], lowlink[v], old(stack), stack, v, 0)
    {
      hide Reach, Exploring, Consistent, ListsComponents, Done, Grown;
      Entered(adj, index[..], stack, currentIndex, grey, v);
      Basics(adj, index[..], stack, currentIndex, grey);
      ToSetAppend(stack, v);
      index[v], lowlink[v] := currentIndex, currentIndex;
      currentIndex := currentIndex + 1;
      stack := stack + [v];
      onStack[v] := true;
      assert index[..] == old(index[..])[v := old(currentIndex)];
    }

    /** One successor of v: explored first if it has no number yet. */
    method Look(v: nat, w: nat, ghost grey: set<nat>, ghost base: seq<nat>)
      requires Valid(grey) && v < |adj| && w < |adj| && w in adj[v] && v in grey
      requires forall x | x in grey :: Reach(adj, x, v)
      requires Exploring(adj, index[..], lowlink[v], base, stack, v, w)
      modifies this, index, lowlink, onStack
      ensures Valid(grey) && Kept(v) && index[v] == old(index[v])
      ensures Exploring(adj, index[..], lowlink[v], base, stack, v, w + 1)
      decreases |White(index[..])|, 1
    {
      hide Reach, Exploring, Explored, Consistent, ListsComponents, Done, StackOk;
      Basics(adj, index[..], stack, currentIndex, grey);
      ghost var index0, stack0, count0, low0 := index[..], stack, currentIndex, lowlink[v];
      ExploringBasics(adj, index0, low0, base, stack0, v, w);
      if index[w] < 0 {
        forall x | x in grey ensures Reach(adj, x, w) {
          ReachEdge(adj, v, w);
          ReachTransitive(adj, x, v, w);
        }
        StrongConnect(w, grey);
        Returned(adj, index0, stack0, count0, low0, index[..], stack, lowlink[w], base, v, w);
        if lowlink[w] < lowlink[v] {
          lowlink[v] := lowlink[w];
        }
      } else {
        Looked(adj, index[..], stack, lowlink[v], base, v, w);
        if onStack[w] {
          if index[w] < lowlink[v] {
            lowlink[v] := index[w];
          }
        }
      }
    }

    /** Takes the component of v off the stack if v is its oldest vertex. */
    method Leave(v: nat, ghost grey: set<nat>, ghost base: seq<nat>)
      requires Valid(grey + {v}) && v < |adj| && grey <= ToSet(base) && forall x | x in grey :: Reach(adj, x, v)
      requires Exploring(adj, index[..], lowlink[v], base, stack, v, |adj|)
      modifies this, onStack
      ensures Valid(grey) && stack <= old(stack) && base <= stack
      ensures currentIndex == old(currentIndex)
      ensures Explored(adj, index[..], lowlink[v], base, stack, v)
    {
      hide Reach, Exploring, Explored, Consistent, ListsComponents, Done, StackOk, IsComponent, ToSet;
      Basics(adj, index[..], stack, currentIndex, grey + {v});
      ExploringBasics(adj, index[..], lowlink[v], base, stack, v, |adj|);
      ghost var stack0 := stack;
      if lowlink[v] == index[v] {
        Completed(adj, index[..], stack, currentIndex, grey, base, v);
        var scc := PopComponent(v, base);
        ListsNext(adj, Done(index[..], stack0), scc, sccs);
        if |scc| > 1 {
          sccs := sccs + [scc];
        }
      } else {
        Stays(adj, index[..], stack, currentIndex, lowlink[v], grey, base, v);
      }
    }

    method PopComponent(v: nat, ghost base: seq<nat>) returns (scc: set<nat>)
      requires onStack.Length == |adj| && base + [v] <= stack && NoRepeats(stack) && forall u | u in stack :: u < |adj|
      requires forall u: nat | u < |adj| :: onStack[u] <==> u in stack
      modifies `stack, onStack
      ensures stack == base && scc == ToSet(old(stack)[|base|..])
      ensures forall u: nat | u < |adj| :: onStack[u] <==> u in stack
    {
      scc := {};
      var going := true;
      while going
        invariant stack <= old(stack) && (if going then base + [v] <= stack else stack == base)
        invariant scc == ToSet(old(stack)[|stack|..])
        invariant forall u: nat | u < |adj| :: onStack[u] <==> u in stack
        decreases |stack|, going
      {
        var w := stack[|stack| - 1];
        ghost var whole := stack;
        stack := stack[..|stack| - 1];
        assert w in old(stack);
        onStack[w] := false;
        assert whole[|base|] == (base + [v])[|base|] == v && old(stack)[|base|] == v;
        assert whole == stack + [w] && w == old(stack)[|stack|];
        assert old(stack)[|stack|..] == [w] + old(stack)[|whole|..];
        assert forall i | 0 <= i < |stack| :: stack[i] == old(stack)[i] && stack[i] != w;
        scc := scc + {w};
        going := w != v;
      }
    }
  }

  lemma Skip(g: Graph, index: seq<int>, low: int, base: seq<nat>, stack: seq<nat>, v: nat, w: nat)
    requires Exploring(g, index, low, base, stack, v, w) && w !in g[v]
    ensures Exploring(g, index, low, base, stack, v, w + 1)
  {}

  // ---- cycles of a basis ----

  /** x, the first attribute of a conclusion, depends on y, an attribute of the premise. */
  ghost predicate DependsOn(basis: seq<Implication>, x: nat, y: nat) {
    exists i :: 0 <= i < |basis| && Feeds(basis[i], x, y)
  }

  ghost predicate Feeds(imp: Implication, x: nat, y: nat) {
    |imp.premise| > 1 && IsFirst(x, imp.closure) && y in imp.premise
  }

  ghost predicate IsFirst(x: nat, s: set<nat>) {
    x in s && forall y | y in s :: x <= y
  }

  ghost function DependencyGraph(basis: seq<Implication>, n: nat): (g: Graph)
    ensures |g| == n && forall x: nat, y: nat | x < n :: y in g[x] <==> y < n && DependsOn(basis, x, y)
  {
    seq(n, x requires 0 <= x < n => set y: nat | y < n && DependsOn(basis, x, y))
  }

  method BuildDependencies(basis: seq<Implication>, n: nat) returns (adj: seq<set<nat>>)
    requires Within(basis, Range(n)) && forall i | 0 <= i < |basis| && |basis[i].premise| > 1 :: basis[i].closure != {}
    ensures adj == DependencyGraph(basis, n)
  {
    adj := seq(n, x => {});
    for i := 0 to |basis|
      invariant |adj| == n
      invariant forall x: nat, y: nat | x < n :: y in adj[x] <==> y < n && DependsOn(basis[..i], x, y)
    {
      assert basis[..i + 1] == basis[..i] + [basis[i]];
      forall x, y ensures DependsOn(basis[..i + 1], x, y) <==> DependsOn(basis[..i], x, y) || Feeds(basis[i], x, y) {
        DependsStep(basis, i, x, y);
      }
      if |basis[i].premise| > 1 {
        var x := Derivation.FirstIn(basis[i].closure, n);
        adj := adj[x := adj[x] + basis[i].premise];
      }
    }
    assert basis[..|basis|] == basis;
    assert forall x | 0 <= x < n :: adj[x] == DependencyGraph(basis, n)[x];
  }

  lemma DependsStep(basis: seq<Implication>, i: nat, x: nat, y: nat)
    requires i < |basis|
    ensures DependsOn(basis[..i + 1], x, y) <==> DependsOn(basis[..i], x, y) || Feeds(basis[i], x, y)
  {
    var l := basis[..i + 1];
    if DependsOn(l, x, y) {
      var k :| 0 <= k < |l| && Feeds(l[k], x, y);
      assert k < i ==> basis[..i][k] == l[k];
    }
    if DependsOn(basis[..i], x, y) {
      var k :| 0 <= k < i && Feeds(basis[..i][k], x, y);
      assert Feeds(l[k], x, y);
    }
    if Feeds(basis[i], x, y) {
      assert Feeds(l[i], x, y);
    }
  }

  /** The cycles are the strongly connected components with two attributes or more, each
      listed once. */
  method FindDCycles(basis: seq<Implication>, n: nat) returns (sccs: seq<set<nat>>)
    requires Within(basis, Range(n)) && forall i | 0 <= i < |basis| && |basis[i].premise| > 1 :: basis[i].closure != {}
    ensures Distinct(sccs) && forall c :: c in sccs <==> IsComponent(DependencyGraph(basis, n), c) && |c| > 1
  {
    hide IsComponent, DependencyGraph, Consistent;
    var adj := BuildDependencies(basis, n);
    var st := new TarjanState(adj);
    for v := 0 to n
      invariant st.adj == adj && fresh(st) && fresh(st.index) && fresh(st.lowlink) && fresh(st.onStack)
      invariant st.Valid({}) && forall u | 0 <= u < v :: st.index[u] >= 0
    {
      if st.index[v] < 0 {
        st.StrongConnect(v, {});
      }
    }
    AllDone(adj, st.index[..], st.stack, st.currentIndex);
    sccs := st.sccs;
  }

  lemma AllDone(g: Graph, index: seq<int>, stack: seq<nat>, count: int)
    requires Consistent(g, index, stack, count, {}) && forall u | 0 <= u < |index| :: index[u] >= 0
    ensures forall c | IsComponent(g, c) :: c <= Done(index, stack)
  {
    if stack != [] {
      NothingGrey(g, index, stack, 0);
    }
  }

  lemma NothingGrey(g: Graph, index: seq<int>, stack: seq<nat>, i: nat)
    requires i < |stack| && stack[i] < |index|
    ensures !ToGrey(g, index, {}, stack[i]) && !BackToGrey(g, index, stack, {})
  {}
}
