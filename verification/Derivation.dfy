/** The loops that compute extents, intents and closures. */
module Derivation {
  import opened FiniteSets
  import opened FormalContext

  /** The elements of s that a loop has seen before index k. */
  ghost function Below(s: set<nat>, k: nat): set<nat> {
    set x | x in s && x < k
  }

  lemma ExtentStep(ctx: Context, attrs: set<nat>, a: nat)
    requires ctx.Valid() && attrs <= ctx.Attributes() && a < |ctx.cols|
    ensures a in attrs ==> ctx.Extent(Below(attrs, a + 1)) == ctx.Extent(Below(attrs, a)) * ctx.cols[a]
    ensures a !in attrs ==> Below(attrs, a + 1) == Below(attrs, a)
  {
    if a in attrs {
      assert Below(attrs, a + 1) == Below(attrs, a) + {a};
    }
  }

  lemma IntentStep(ctx: Context, objs: set<nat>, o: nat)
    requires ctx.Valid() && objs <= ctx.Objects() && o < |ctx.rows|
    ensures o in objs ==> ctx.Intent(Below(objs, o + 1)) == ctx.Intent(Below(objs, o)) * ctx.rows[o]
    ensures o !in objs ==> Below(objs, o + 1) == Below(objs, o)
  {
    if o in objs {
      assert Below(objs, o + 1) == Below(objs, o) + {o};
    }
  }

  lemma BelowAll(s: set<nat>, n: nat)
    requires s <= Range(n)
    ensures Below(s, n) == s && Below(s, 0) == {}
  {}

  /** Two ways to the extent: intersect columns, or test rows. */
  method ComputeExtent(ctx: Context, attrs: set<nat>) returns (extent: set<nat>)
    requires ctx.Valid() && attrs <= ctx.Attributes()
    ensures extent == ctx.Extent(attrs)
  {
    extent := {};
    if |ctx.cols| < |ctx.rows| {
      extent := ctx.Objects();
      BelowAll(attrs, |ctx.cols|);
      for a := 0 to |ctx.cols|
        invariant extent == ctx.Extent(Below(attrs, a))
      {
        ExtentStep(ctx, attrs, a);
        if a in attrs {
          extent := extent * ctx.cols[a];
        }
      }
    } else {
      for o := 0 to |ctx.rows|
        invariant extent == Below(ctx.Extent(attrs), o)
      {
        if attrs <= ctx.rows[o] {
          extent := extent + {o};
        }
      }
    }
  }

  /** Two ways to the intent: intersect the rows of the objects, or test columns. */
  method ComputeIntent(ctx: Context, objs: set<nat>) returns (intent: set<nat>)
    requires ctx.Valid() && objs <= ctx.Objects()
    ensures intent == ctx.Intent(objs)
  {
    intent := {};
    if |objs| < |ctx.cols| {
      intent := ctx.Attributes();
      BelowAll(objs, |ctx.rows|);
      for o := 0 to |ctx.rows|
        invariant intent == ctx.Intent(Below(objs, o))
      {
        IntentStep(ctx, objs, o);
        if o in objs {
          intent := intent * ctx.rows[o];
        }
      }
    } else {
      for a := 0 to |ctx.cols|
        invariant intent == Below(ctx.Intent(objs), a)
      {
        if objs <= ctx.cols[a] {
          intent := intent + {a};
        }
      }
    }
  }

  method Close(ctx: Context, attrs: set<nat>) returns (closure: set<nat>)
    requires ctx.Valid() && attrs <= ctx.Attributes()
    ensures closure == ctx.Closure(attrs)
  {
    var extent := ComputeExtent(ctx, attrs);
    closure := ComputeIntent(ctx, extent);
    ClosureExtensive(ctx, attrs);
    closure := closure + attrs;
  }

  /** The variant of LinCbO: every attribute when there is no object, and a loop that
      starts from the row of the first object and stops once nothing is left. */
  method DenseComputeIntent(ctx: Context, objs: set<nat>) returns (intent: set<nat>)
    requires ctx.Valid() && objs <= ctx.Objects()
    ensures intent == ctx.Intent(objs)
  {
    if objs == {} {
      return ctx.Attributes();
    }
    intent := {};
    if |objs| < |ctx.cols| {
      var o := FirstIn(objs, |ctx.rows|);
      intent := ctx.rows[o];
      BelowAll(objs, |ctx.rows|);
      IntentStep(ctx, objs, o);
      assert Below(objs, o) == {};
      assert ctx.Intent({}) * ctx.rows[o] == ctx.rows[o];
      o := o + 1;
      while o < |ctx.rows|
        invariant o <= |ctx.rows|
        invariant intent == ctx.Intent(Below(objs, o))
      {
        IntentStep(ctx, objs, o);
        if o in objs {
          if intent == {} {
            IntentAntitone(ctx, Below(objs, o), objs);
            return;
          }
          intent := intent * ctx.rows[o];
        }
        o := o + 1;
      }
    } else {
      for a := 0 to |ctx.cols|
        invariant intent == Below(ctx.Intent(objs), a)
      {
        if objs <= ctx.cols[a] {
          intent := intent + {a};
        }
      }
    }
  }

  method FirstIn(s: set<nat>, ghost n: nat) returns (x: nat)
    requires s != {} && forall y | y in s :: y < n
    ensures x in s && forall y | y in s :: x <= y
  {
    x := 0;
    while x !in s
      invariant forall y | y in s :: x <= y
      decreases n - x
    {
      x := x + 1;
    }
  }

  /** The first element, or INT_MAX for the empty set. */
  method FindFirst(s: set<nat>, n: nat) returns (x: int)
    requires forall y | y in s :: y < n
    ensures if s == {} then x == INT_MAX else x in s && forall y | y in s :: x <= y
  {
    for k := 0 to n
      invariant forall y | y in s :: k <= y
    {
      if k in s {
        return k;
      }
    }
    x := INT_MAX;
  }

  /** e lists s in increasing order. */
  ghost predicate Sorted(s: set<nat>, e: seq<nat>) {
    && (forall p, q | 0 <= p < q < |e| :: e[p] < e[q])
    && forall x: nat :: x in s <==> x in e
  }

  lemma NothingSorted(s: set<nat>, e: seq<nat>)
    requires Sorted(s, e)
    ensures s == {} <==> e == []
  {
    if e != [] { assert e[0] in e; }
  }

  lemma {:induction false} SortedUnique(s: set<nat>, e: seq<nat>, f: seq<nat>)
    requires Sorted(s, e) && Sorted(s, f)
    ensures e == f
    decreases |e|
  {
    NothingSorted(s, e);
    NothingSorted(s, f);
    if e != [] {
      assert e[0] in e;
      var p :| 0 <= p < |f| && f[p] == e[0];
      assert f[0] in e;
      var q :| 0 <= q < |e| && e[q] == f[0];
      assert p == 0;
      assert e == [e[0]] + e[1..] && f == [f[0]] + f[1..];
      SortedUnique(s - {e[0]}, e[1..], f[1..]);
    }
  }

  method Elements(s: set<nat>, n: nat) returns (e: seq<nat>)
    requires forall y | y in s :: y < n
    ensures Sorted(s, e)
  {
    e := [];
    for k := 0 to n
      invariant Sorted(Below(s, k), e)
    {
      if k in s {
        assert forall p | 0 <= p < |e| :: e[p] in e;
        assert forall x: nat :: x in e + [k] <==> x in e || x == k;
        e := e + [k];
      }
    }
    assert Below(s, n) == s;
  }
}
