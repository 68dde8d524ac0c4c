/** The Hasse diagram of distinct sets given in a linear extension: every element looks back
    at the ones before it and skips what is already below one of its covers. */
module HasseScan {
  import opened FiniteSets
  import opened Graphs

  /** No set comes after one that it contains: larger sets come first. */
  ghost predicate LinearExtension(v: seq<set<nat>>) {
    Distinct(v) && forall i, j | 0 <= i < j < |v| :: !(v[i] < v[j])
  }

  /** What lies below s in the diagram: larger sets of attributes. */
  ghost function Below(v: seq<set<nat>>): (g: Graph)
    ensures |g| == |v| && forall s: nat, t: nat | s < |v| :: t in g[s] <==> t < |v| && v[s] < v[t]
  {
    seq(|v|, s requires 0 <= s < |v| => set t: nat | t < |v| && v[s] < v[t])
  }

  lemma BelowIsOrder(v: seq<set<nat>>)
    ensures StrictOrder(Below(v))
  {
    forall s, t, u | 0 <= s < |v| && t in Below(v)[s] && u in Below(v)[t] ensures u in Below(v)[s] {}
  }

  /** The lower covers of every element in the diagram. */
  ghost function CoverGraph(v: seq<set<nat>>): (g: Graph)
    ensures |g| == |v| && WellFormed(Below(v)) && forall s | 0 <= s < |v| :: g[s] == Covers(Below(v), s)
  {
    BelowIsOrder(v);
    seq(|v|, s requires 0 <= s < |v| => Covers(Below(v), s))
  }

  /** The lower covers of the first n elements, in any order, each once. */
  ghost predicate Found(v: seq<set<nat>>, children: seq<seq<nat>>, n: nat)
    requires n <= |v|
  {
    |children| == n && forall s | 0 <= s < n :: NoRepeats(children[s]) && ToSet(children[s]) == CoverGraph(v)[s]
  }

  lemma ChildIsBefore(v: seq<set<nat>>, s: nat, t: nat)
    requires LinearExtension(v) && s < |v| && t in Below(v)[s]
    ensures t < s
  {}

  // ---- marking descendants ----

  ghost predicate Closed(v: seq<set<nat>>, marks: set<nat>) {
    forall c, d | c in marks && c < |v| && d in Below(v)[c] :: d in marks
  }

  ghost function Marks(visited: seq<bool>): set<nat> {
    set t: nat | t < |visited| && visited[t]
  }

  /** Everything below c, by covers, is in a set that the covers do not leave. */
  lemma CoversReachAll(v: seq<set<nat>>, marks: set<nat>, c: nat, d: nat)
    requires c < |v| && d in Below(v)[c] && CoverGraph(v)[c] <= marks
    requires forall x | x in marks && x < |v| :: CoverGraph(v)[x] <= marks
    ensures d in marks
  {
    BelowIsOrder(v);
    assert Reduced(Below(v), CoverGraph(v), |v|);
    Downhill(Below(v), CoverGraph(v), |v|, marks, c, d);
  }

  /** Marks the children of c that are not marked yet, and queues them. */
  method MarkChildren(ghost v: seq<set<nat>>, children: seq<nat>, visited: array<bool>, stack0: seq<nat>)
      returns (stack: seq<nat>)
    requires visited.Length == |v| && forall c | c in children :: c < |v|
    requires NoRepeats(stack0) && forall c | c in stack0 :: c < |v| && visited[c]
    modifies visited
    ensures NoRepeats(stack) && stack0 <= stack && forall c | c in stack :: c < |v| && visited[c]
    ensures Marks(visited[..]) == old(Marks(visited[..])) + ToSet(children)
    ensures ToSet(stack) == ToSet(stack0) + (ToSet(children) - old(Marks(visited[..])))
  {
    stack := stack0;
    ghost var marks0 := Marks(visited[..]);
    hide NoRepeats, Marks;
    for k := 0 to |children|
      invariant NoRepeats(stack) && stack0 <= stack && forall c | c in stack :: c < |v| && visited[c]
      invariant Marks(visited[..]) == marks0 + ToSet(children[..k])
      invariant ToSet(stack) == ToSet(stack0) + (ToSet(children[..k]) - marks0)
    {
      var child := children[k];
      assert children[..k + 1] == children[..k] + [child] && child in children;
      ToSetAppend(children[..k], child);
      OneMoreMark(visited[..], child);
      if !visited[child] {
        assert child !in stack;
        PushedOnce(stack, child);
        visited[child] := true;
        stack := stack + [child];
      }
    }
    assert children[..|children|] == children;
  }

  lemma OneMoreMark(visited: seq<bool>, c: nat)
    requires c < |visited|
    ensures visited[c] <==> c in Marks(visited)
    ensures Marks(visited[c := true]) == Marks(visited) + {c}
  {}

  lemma PushedOnce(stack: seq<nat>, c: nat)
    requires NoRepeats(stack) && c !in stack
    ensures NoRepeats(stack + [c]) && ToSet(stack + [c]) == ToSet(stack) + {c}
  {
    assert forall i | 0 <= i < |stack| :: stack[i] in stack;
  }

  lemma CoversBelow(v: seq<set<nat>>, c: nat)
    requires c < |v|
    ensures CoverGraph(v)[c] <= Below(v)[c] && forall t | t in Below(v)[c] :: t < |v| && Below(v)[t] <= Below(v)[c]
  {
    BelowIsOrder(v);
  }

  /** Nothing marked has an unmarked cover, except possibly what is still on the stack. */
  ghost predicate Handled(v: seq<set<nat>>, marks: set<nat>, pending: set<nat>) {
    forall x | x in marks && x < |v| && x !in pending :: CoverGraph(v)[x] <= marks
  }

  /** Marks everything below c, given that what is marked already has all that is below it
      marked as well. */
  method MarkDescendants(ghost v: seq<set<nat>>, children: seq<seq<nat>>, c: nat, visited: array<bool>)
    requires LinearExtension(v) && |children| <= |v| == visited.Length && Found(v, children, |children|)
      && c < |children|
    requires Closed(v, Marks(visited[..]))
    modifies visited
    ensures Marks(visited[..]) == old(Marks(visited[..])) + Below(v)[c]
  {
    hide LinearExtension, CoverGraph, Below;
    ghost var marks0 := Marks(visited[..]);
    ClosedHandled(v, marks0);
    ChildrenInRange(v, children, c);
    var stack: seq<nat> := [];
    stack := MarkChildren(v, children[c], visited, stack);
    CoversBelow(v, c);
    var head := 0;
    while head < |stack|
      invariant head <= |stack| && NoRepeats(stack) && forall x | x in stack :: x < |v| && visited[x]
      invariant ToSet(stack) <= Below(v)[c]
      invariant marks0 + ToSet(children[c]) <= Marks(visited[..]) <= marks0 + Below(v)[c]
      invariant ToSet(stack) == Marks(visited[..]) - marks0
      invariant Handled(v, Marks(visited[..]), ToSet(stack[head..]))
      decreases |v| - head
    {
      var cur := stack[head];
      ghost var marks := Marks(visited[..]);
      assert cur in stack && cur in ToSet(stack);
      ShorterThan(v, stack);
      CoversBelow(v, c);
      CoversBelow(v, cur);
      Earlier(v, |children|, c, cur);
      ChildrenInRange(v, children, cur);
      ghost var before := stack;
      stack := MarkChildren(v, children[cur], visited, stack);
      head := head + 1;
      HandledStep(v, marks, Marks(visited[..]), before, stack, head - 1, children[cur], marks0);
      ShorterThan(v, stack);
    }
    assert stack[head..] == [];
    forall d | d in Below(v)[c] ensures d in Marks(visited[..]) {
      CoversReachAll(v, Marks(visited[..]), c, d);
    }
  }

  lemma ChildrenInRange(v: seq<set<nat>>, children: seq<seq<nat>>, c: nat)
    requires |children| <= |v| && Found(v, children, |children|) && c < |children|
    ensures ToSet(children[c]) == CoverGraph(v)[c] && forall x | x in children[c] :: x < |v|
  {
    CoversBelow(v, c);
    assert forall x | x in children[c] :: x in ToSet(children[c]);
  }

  lemma ClosedHandled(v: seq<set<nat>>, marks: set<nat>)
    requires Closed(v, marks)
    ensures Handled(v, marks, {})
  {
    forall x | x in marks && x < |v| ensures CoverGraph(v)[x] <= marks {
      CoversBelow(v, x);
    }
  }

  lemma ShorterThan(v: seq<set<nat>>, stack: seq<nat>)
    requires NoRepeats(stack) && forall x | x in stack :: x < |v|
    ensures |stack| <= |v|
  {
    forall k | 0 <= k < |stack| ensures stack[k] < |v| { assert stack[k] in stack; }
    Pigeonhole(stack, |v|);
  }

  lemma Earlier(v: seq<set<nat>>, n: nat, c: nat, d: nat)
    requires LinearExtension(v) && c < n <= |v| && d in Below(v)[c]
    ensures d < n
  {}

  lemma HandledStep(v: seq<set<nat>>, marks: set<nat>, marks': set<nat>, before: seq<nat>, stack: seq<nat>, head: nat,
                    children: seq<nat>, marks0: set<nat>)
    requires head < |before| && before <= stack && before[head] < |v| && marks' == marks + ToSet(children)
    requires ToSet(children) == CoverGraph(v)[before[head]]
    requires Handled(v, marks, ToSet(before[head..])) && ToSet(stack) == ToSet(before) + (ToSet(children) - marks)
    requires ToSet(before) == marks - marks0
    ensures Handled(v, marks', ToSet(stack[head + 1..]))
  {
    hide CoverGraph;
    forall x | x in marks' && x < |v| && x !in ToSet(stack[head + 1..]) ensures CoverGraph(v)[x] <= marks' {
      StillPending(before, stack, head, x);
      if x != before[head] {
        assert x in marks;
        assert x !in ToSet(before[head..]);
      }
    }
  }

  /** What was pending or is new is pending after the head has been taken. */
  lemma StillPending(before: seq<nat>, stack: seq<nat>, head: nat, x: nat)
    requires head < |before| && before <= stack
    ensures x in before[head..] && x != before[head] ==> x in stack[head + 1..]
    ensures x in ToSet(stack) && x !in ToSet(before) ==> x in stack[head + 1..]
  {
    if x in before[head..] && x != before[head] {
      var k :| 0 <= k < |before[head..]| && before[head..][k] == x;
      assert stack[head + 1..][k - 1] == x;
    }
    if x in stack && x !in before {
      assert stack == before + stack[|before|..];
      var k :| 0 <= k < |stack[|before|..]| && stack[|before|..][k] == x;
      assert stack[head + 1..][|before| + k - head - 1] == x;
    }
  }

  // ---- one element ----

  /** What is below s is a cover of s or below one. */
  lemma {:induction false} CoverTowards(v: seq<set<nat>>, s: nat, w: nat) returns (c: nat)
    requires s < |v| && w in Below(v)[s]
    ensures c in CoverGraph(v)[s] && c < |v| && (c == w || w in Below(v)[c])
    decreases |Interval(Below(v), s, w)|
  {
    BelowIsOrder(v);
    if w in CoverGraph(v)[s] {
      c := w;
    } else {
      assert Between(Below(v), s, w);
      var x :| x in Below(v)[s] && w in Below(v)[x];
      assert x in Interval(Below(v), s, w) && Interval(Below(v), s, x) <= Interval(Below(v), s, w);
      SubsetCard(Interval(Below(v), s, x), Interval(Below(v), s, w));
      c := CoverTowards(v, s, x);
    }
  }

  /** The marks when the scan for s has come down to p: what is below a cover found so far. */
  ghost predicate MarksOk(v: seq<set<nat>>, marks: set<nat>, mine: seq<nat>, p: nat) {
    forall t: nat :: t in marks <==> t < p && exists c :: c in mine && c < |v| && t in Below(v)[c]
  }

  ghost predicate CoversFound(v: seq<set<nat>>, s: nat, mine: seq<nat>, p: nat)
    requires s < |v|
  {
    NoRepeats(mine) && forall t: nat :: t in mine <==> t in CoverGraph(v)[s] && t >= p
  }

  lemma MarksClosed(v: seq<set<nat>>, marks: set<nat>, mine: seq<nat>, p: nat)
    requires LinearExtension(v) && p <= |v| && MarksOk(v, marks, mine, p)
    ensures Closed(v, marks)
  {
    BelowIsOrder(v);
    forall x, d | x in marks && x < |v| && d in Below(v)[x] ensures d in marks {
      var c :| c in mine && c < |v| && x in Below(v)[c];
      ChildIsBefore(v, x, d);
    }
  }

  /** A marked element is no cover. */
  lemma MarkedIsNoCover(v: seq<set<nat>>, s: nat, marks: set<nat>, mine: seq<nat>, t: nat)
    requires s < |v| && MarksOk(v, marks, mine, t + 1) && CoversFound(v, s, mine, t + 1) && t in marks
    ensures t !in CoverGraph(v)[s] && CoversFound(v, s, mine, t) && MarksOk(v, marks - {t}, mine, t)
  {
    BelowIsOrder(v);
    var c :| c in mine && c < |v| && t in Below(v)[c];
    CoversBelow(v, s);
    assert Between(Below(v), s, t);
  }

  /** An unmarked element below s is a cover. */
  lemma UnmarkedIsCover(v: seq<set<nat>>, s: nat, marks: set<nat>, mine: seq<nat>, t: nat)
    requires LinearExtension(v) && s < |v| && t < s && MarksOk(v, marks, mine, t + 1) && CoversFound(v, s, mine, t + 1)
    requires t !in marks && t in Below(v)[s]
    ensures t in CoverGraph(v)[s]
  {
    BelowIsOrder(v);
    var c := CoverTowards(v, s, t);
    if c != t { ChildIsBefore(v, c, t); }
  }

  lemma CoverAdded(v: seq<set<nat>>, s: nat, marks: set<nat>, mine: seq<nat>, t: nat)
    requires LinearExtension(v) && s < |v| && t < s && MarksOk(v, marks, mine, t + 1) && CoversFound(v, s, mine, t + 1)
    requires t !in marks && t in CoverGraph(v)[s]
    ensures CoversFound(v, s, mine + [t], t) && MarksOk(v, marks + Below(v)[t], mine + [t], t)
  {
    hide CoverGraph;
    var mine' := mine + [t];
    assert forall c :: c in mine' <==> c in mine || c == t;
    forall d: nat ensures d in marks + Below(v)[t] <==> d < t && exists c :: c in mine' && c < |v| && d in Below(v)[c] {
      if d in Below(v)[t] { ChildIsBefore(v, t, d); }
    }
  }

  lemma NotBelow(v: seq<set<nat>>, s: nat, marks: set<nat>, mine: seq<nat>, t: nat)
    requires s < |v| && MarksOk(v, marks, mine, t + 1) && CoversFound(v, s, mine, t + 1)
    requires t !in marks && t !in Below(v)[s]
    ensures CoversFound(v, s, mine, t) && MarksOk(v, marks, mine, t)
  {
    CoversBelow(v, s);
    hide CoverGraph;
    forall d: nat ensures d in marks <==> d < t && exists c :: c in mine && c < |v| && d in Below(v)[c] {
      if d == t { assert d !in marks; }
    }
  }

  /** The covers of element s, from the last one before it down; all marks are clear again
      afterwards.  `isBelow` is the test of the algorithm at hand. */
  method ScanBack(ghost v: seq<set<nat>>, children: seq<seq<nat>>, s: nat, visited: array<bool>, isBelow: nat -> bool)
      returns (mine: seq<nat>)
    requires LinearExtension(v) && s < |v| == visited.Length && Found(v, children, s) && Marks(visited[..]) == {}
    requires forall t | 0 <= t < s :: isBelow(t) <==> v[s] <= v[t]
    modifies visited
    ensures Marks(visited[..]) == {} && NoRepeats(mine) && ToSet(mine) == CoverGraph(v)[s]
  {
    hide LinearExtension, CoverGraph, Found;
    mine := [];
    ScanStart(v, s);
    for p := s downto 0
      invariant CoversFound(v, s, mine, p) && MarksOk(v, Marks(visited[..]), mine, p)
    {
      ghost var marks := Marks(visited[..]);
      if visited[p] {
        MarkedIsNoCover(v, s, marks, mine, p);
        visited[p] := false;
        assert Marks(visited[..]) == marks - {p};
        continue;
      }
      assert p !in marks;
      if !isBelow(p) {
        NotBelow(v, s, marks, mine, p);
        continue;
      }
      StrictlyBelow(v, s, p);
      UnmarkedIsCover(v, s, marks, mine, p);
      CoverAdded(v, s, marks, mine, p);
      MarksClosed(v, marks, mine, p + 1);
      mine := mine + [p];
      FoundSize(v, children, s);
      MarkDescendants(v, children, p, visited);
    }
    assert ToSet(mine) == CoverGraph(v)[s];
  }

  lemma FoundSize(v: seq<set<nat>>, children: seq<seq<nat>>, s: nat)
    requires s <= |v| && Found(v, children, s)
    ensures |children| == s
  {}

  lemma StrictlyBelow(v: seq<set<nat>>, s: nat, p: nat)
    requires LinearExtension(v) && p < s < |v| && v[s] <= v[p]
    ensures p in Below(v)[s]
  {
    assert v[p] != v[s];
  }

  lemma ScanStart(v: seq<set<nat>>, s: nat)
    requires LinearExtension(v) && s < |v|
    ensures CoversFound(v, s, [], s) && MarksOk(v, {}, [], s)
  {
    CoversBelow(v, s);
    forall t | t in CoverGraph(v)[s] ensures t < s {
      ChildIsBefore(v, s, t);
    }
  }
}
