/** Close-by-One: every closed set of objects below the top is produced once, from the
    node that its first new attribute leads away from. */
module CloseByOne {
  import opened FormalContext
  import Derivation

  datatype Option<T> = None | Some(value: T)

  /** A concept together with the attribute added last (-1 for the top); seen as work to be
      done, all that is left to try are the attributes after it. */
  datatype Node = Node(extent: set<nat>, intent: set<nat>, last: int)

  ghost predicate IsClosed(ctx: Context, x: set<nat>) {
    x <= ctx.Objects() && ctx.Extent(ctx.Intent(x)) == x
  }

  ghost predicate NodeOk(ctx: Context, nd: Node) {
    IsClosed(ctx, nd.extent) && nd.intent == ctx.Intent(nd.extent) && -1 <= nd.last < |ctx.cols|
  }

  ghost function Root(ctx: Context): Node {
    Node(ctx.Objects(), ctx.Intent(ctx.Objects()), -1)
  }

  lemma RootOk(ctx: Context)
    requires ctx.Valid()
    ensures NodeOk(ctx, Root(ctx))
  {
    ExtentOfIntent(ctx, ctx.Objects());
  }

  lemma ExtentOfIntent(ctx: Context, x: set<nat>)
    requires ctx.Valid() && x <= ctx.Objects()
    ensures x <= ctx.Extent(ctx.Intent(x)) <= ctx.Objects()
  {
    Galois(ctx, ctx.Intent(x), x);
  }

  /** Some attribute before i that is not in the intent already belongs to all of x. */
  ghost predicate SeenBefore(ctx: Context, intent: set<nat>, x: set<nat>, i: nat) {
    exists k: nat :: k < i && k < |ctx.cols| && k !in intent && x <= ctx.cols[k]
  }

  /** The concept that attribute i leads to, unless an earlier attribute leads there. */
  ghost function ChildAt(ctx: Context, nd: Node, i: nat): Option<Node>
    requires i < |ctx.cols|
  {
    var x := nd.extent * ctx.cols[i];
    if i in nd.intent || SeenBefore(ctx, nd.intent, x, i) then None
    else Some(Node(x, ctx.Intent(x), i))
  }

  lemma ChildOk(ctx: Context, nd: Node, i: nat)
    requires ctx.Valid() && NodeOk(ctx, nd) && i < |ctx.cols| && ChildAt(ctx, nd, i).Some?
    ensures NodeOk(ctx, ChildAt(ctx, nd, i).value) && ChildAt(ctx, nd, i).value.extent < nd.extent
  {
    var x := nd.extent * ctx.cols[i];
    ExtentOfIntent(ctx, x);
    IntentAntitone(ctx, x, nd.extent);
    forall o | o in ctx.Extent(ctx.Intent(x)) ensures o in x {
      assert i in ctx.Intent(x);
      assert o in ctx.Extent(nd.intent);
    }
    assert i !in ctx.Intent(nd.extent);
  }

  /** x is a closed set strictly below the node whose first attribute not in the intent of
      the node comes after `last`. */
  ghost predicate InRegion(ctx: Context, nd: Node, x: set<nat>) {
    IsClosed(ctx, x) && x < nd.extent && AgreesUpTo(ctx, x, nd.intent, nd.last)
  }

  ghost predicate AgreesUpTo(ctx: Context, x: set<nat>, intent: set<nat>, last: int) {
    forall a: nat | a < |ctx.cols| && a <= last :: x <= ctx.cols[a] <==> a in intent
  }

  /** All that remains of a node after attribute i has been tried. */
  function Rest(nd: Node, i: int): Node {
    nd.(last := i)
  }

  lemma InheritedAt(ctx: Context, nd: Node, x: set<nat>, k: nat)
    requires NodeOk(ctx, nd) && x <= nd.extent && k in nd.intent
    ensures k < |ctx.cols| && k in ctx.Intent(x) && x <= ctx.cols[k]
  {}

  lemma RegionWithout(ctx: Context, nd: Node, x: set<nat>, i: nat)
    requires ctx.Valid() && NodeOk(ctx, nd) && nd.last + 1 == i < |ctx.cols|
    ensures InRegion(ctx, Rest(nd, i), x) <==> InRegion(ctx, nd, x) && !(x <= ctx.cols[i] && i !in nd.intent)
  {
    hide IsClosed;
    if x < nd.extent && i in nd.intent { InheritedAt(ctx, nd, x, i); }
  }

  lemma RegionWith(ctx: Context, nd: Node, x: set<nat>, i: nat)
    requires ctx.Valid() && NodeOk(ctx, nd) && nd.last + 1 == i < |ctx.cols|
    requires InRegion(ctx, nd, x) && x <= ctx.cols[i] && i !in nd.intent
    ensures ChildAt(ctx, nd, i).Some?
    ensures x == ChildAt(ctx, nd, i).value.extent || InRegion(ctx, ChildAt(ctx, nd, i).value, x)
  {
    hide IsClosed, Context.Valid;
    var e := nd.extent * ctx.cols[i];
    assert x <= e;
    forall k: nat | k < i && k !in nd.intent ensures !(e <= ctx.cols[k]) {
      assert !(x <= ctx.cols[k]);
    }
    AgreesBelow(ctx, nd, x, e, i);
  }

  lemma AgreesBelow(ctx: Context, nd: Node, x: set<nat>, e: set<nat>, i: nat)
    requires NodeOk(ctx, nd) && nd.last + 1 == i < |ctx.cols| && x <= e <= nd.extent && e <= ctx.cols[i]
    requires AgreesUpTo(ctx, x, nd.intent, nd.last)
    ensures AgreesUpTo(ctx, x, ctx.Intent(e), i)
  {
    forall a: nat | a <= i ensures x <= ctx.cols[a] <==> a in ctx.Intent(e) {
      if a < i && a in nd.intent { InheritedAt(ctx, nd, e, a); }
    }
  }

  lemma CanonicalAgrees(ctx: Context, nd: Node, e: set<nat>, i: nat)
    requires NodeOk(ctx, nd) && i <= |ctx.cols| && e <= nd.extent && !SeenBefore(ctx, nd.intent, e, i)
    ensures AgreesUpTo(ctx, e, nd.intent, i - 1)
  {
    forall a: nat | a < i ensures e <= ctx.cols[a] <==> a in nd.intent {
      if a in nd.intent { InheritedAt(ctx, nd, e, a); }
    }
  }

  lemma AgreesThrough(ctx: Context, x: set<nat>, e: set<nat>, intent: set<nat>, i: nat)
    requires i < |ctx.cols| && AgreesUpTo(ctx, e, intent, i - 1) && AgreesUpTo(ctx, x, ctx.Intent(e), i)
    ensures AgreesUpTo(ctx, x, intent, i - 1)
  {
    forall a: nat | a < i ensures x <= ctx.cols[a] <==> a in intent {
      assert a in ctx.Intent(e) <==> e <= ctx.cols[a];
    }
  }

  lemma RegionOfChild(ctx: Context, nd: Node, x: set<nat>, i: nat)
    requires ctx.Valid() && NodeOk(ctx, nd) && nd.last + 1 == i < |ctx.cols| && ChildAt(ctx, nd, i).Some?
    requires x == ChildAt(ctx, nd, i).value.extent || InRegion(ctx, ChildAt(ctx, nd, i).value, x)
    ensures InRegion(ctx, nd, x) && x <= ctx.cols[i] && i !in nd.intent
  {
    hide IsClosed, Context.Valid, AgreesUpTo, ChildAt, SeenBefore, NodeOk, Context.Intent;
    ChildOk(ctx, nd, i);
    ChildShape(ctx, nd, i);
    var c := ChildAt(ctx, nd, i).value;
    if x != c.extent {
      AgreesThrough(ctx, x, c.extent, nd.intent, i);
    }
  }

  lemma ChildShape(ctx: Context, nd: Node, i: nat)
    requires NodeOk(ctx, nd) && i < |ctx.cols| && ChildAt(ctx, nd, i).Some?
    requires NodeOk(ctx, ChildAt(ctx, nd, i).value)
    ensures var c := ChildAt(ctx, nd, i).value;
      && i !in nd.intent && c.extent <= ctx.cols[i] && c.intent == ctx.Intent(c.extent) && c.last == i
      && IsClosed(ctx, c.extent) && AgreesUpTo(ctx, c.extent, nd.intent, i - 1)
  {
    CanonicalAgrees(ctx, nd, nd.extent * ctx.cols[i], i);
  }

  ghost function Weight(ctx: Context, nd: Node, x: set<nat>): nat {
    if InRegion(ctx, nd, x) then 1 else 0
  }

  lemma OutsideItself(ctx: Context, nd: Node)
    ensures !InRegion(ctx, nd, nd.extent)
  {}

  /** Trying attribute i splits what is to be found: the child, what is below the child, and
      the rest.  Nothing is in two of them. */
  lemma RegionSplits(ctx: Context, nd: Node, x: set<nat>)
    requires ctx.Valid() && NodeOk(ctx, nd) && nd.last + 1 < |ctx.cols|
    ensures var i := nd.last + 1;
      Weight(ctx, nd, x) == Weight(ctx, Rest(nd, i), x) + match ChildAt(ctx, nd, i)
        case None => 0
        case Some(c) => (if x == c.extent then 1 else 0) + Weight(ctx, c, x)
  {
    hide InRegion, Context.Valid, IsClosed;
    var i := nd.last + 1;
    if ChildAt(ctx, nd, i).Some? { OutsideItself(ctx, ChildAt(ctx, nd, i).value); }
    hide ChildAt;
    RegionWithout(ctx, nd, x, i);
    if InRegion(ctx, nd, x) && x <= ctx.cols[i] && i !in nd.intent {
      RegionWith(ctx, nd, x, i);
    }
    if ChildAt(ctx, nd, i).Some?
      && (x == ChildAt(ctx, nd, i).value.extent || InRegion(ctx, ChildAt(ctx, nd, i).value, x)) {
      RegionOfChild(ctx, nd, x, i);
    }
  }

  /** Everything is below the root, and nothing is left after the last attribute. */
  lemma RegionEnds(ctx: Context, nd: Node, x: set<nat>)
    requires ctx.Valid() && NodeOk(ctx, nd)
    ensures nd == Root(ctx) ==> (InRegion(ctx, nd, x) <==> IsClosed(ctx, x) && x != ctx.Objects())
    ensures nd.last + 1 == |ctx.cols| ==> !InRegion(ctx, nd, x)
  {
    if nd.last + 1 == |ctx.cols| && AgreesUpTo(ctx, x, nd.intent, nd.last) {
      assert ctx.Intent(x) == nd.intent;
    }
  }

  // ---- one attribute, as the code tries it ----

  /** The canonicity test, and the intent of the child: inherited below i, tested above. */
  method TryAttribute(ctx: Context, nd: Node, i: nat) returns (child: Option<Node>)
    requires ctx.Valid() && NodeOk(ctx, nd) && i < |ctx.cols|
    ensures child == ChildAt(ctx, nd, i)
  {
    if i in nd.intent {
      return None;
    }
    var x := nd.extent * ctx.cols[i];
    for k := 0 to i
      invariant !SeenBefore(ctx, nd.intent, x, k)
    {
      if k in nd.intent {
        continue;
      }
      if x <= ctx.cols[k] {
        return None;
      }
    }
    var intent := set k | k in nd.intent && k < i;
    intent := intent + {i};
    InheritedBelow(ctx, nd, x, i);
    for k := i + 1 to |ctx.cols|
      invariant intent == Derivation.Below(ctx.Intent(x), k)
    {
      if k in nd.intent {
        InheritedAt(ctx, nd, x, k);
        intent := intent + {k};
      } else if x <= ctx.cols[k] {
        intent := intent + {k};
      }
    }
    assert Derivation.Below(ctx.Intent(x), |ctx.cols|) == ctx.Intent(x);
    child := Some(Node(x, intent, i));
  }

  /** A canonical child has the intent of its parent below i. */
  lemma InheritedBelow(ctx: Context, nd: Node, x: set<nat>, i: nat)
    requires ctx.Valid() && NodeOk(ctx, nd) && i < |ctx.cols| && x == nd.extent * ctx.cols[i]
    requires !SeenBefore(ctx, nd.intent, x, i)
    ensures Derivation.Below(ctx.Intent(x), i + 1) == (set k | k in nd.intent && k < i) + {i}
  {
    forall k: nat | k < i ensures k in ctx.Intent(x) <==> k in nd.intent {
      if k in nd.intent { InheritedAt(ctx, nd, x, k); }
    }
  }
}
