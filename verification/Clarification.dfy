/** Merging attributes that have the same objects, and going back. */
module Clarification {
  import opened FiniteSets
  import opened FormalContext
  import opened MinimalCovers

  ghost function ClassOf(ctx: Context, r: nat): set<nat>
    requires r < |ctx.cols|
  {
    set a: nat | a < |ctx.cols| && ctx.cols[a] == ctx.cols[r]
  }

  /** r is the first attribute with its column. */
  ghost predicate IsRep(ctx: Context, r: nat) {
    r < |ctx.cols| && forall b | 0 <= b < r :: ctx.cols[b] != ctx.cols[r]
  }

  /** classes[c] are the attributes with the column of reps[c], its first member. */
  ghost predicate IsClassesOf(ctx: Context, classes: seq<set<nat>>, reps: seq<nat>) {
    && |classes| == |reps| <= |ctx.cols|
    && (forall c | 0 <= c < |reps| :: IsRep(ctx, reps[c]) && classes[c] == ClassOf(ctx, reps[c]))
    && (forall c, d | 0 <= c < d < |reps| :: reps[c] < reps[d])
  }

  ghost predicate InSomeClass(classes: seq<set<nat>>, a: nat) {
    exists c :: 0 <= c < |classes| && a in classes[c]
  }

  /** The clarified context has one attribute per class, in the order of the first members. */
  ghost predicate IsClarification(ctx: Context, clar: Context, classes: seq<set<nat>>, reps: seq<nat>) {
    && IsClassesOf(ctx, classes, reps) && (forall a: nat | a < |ctx.cols| :: InSomeClass(classes, a))
    && clar.Valid() && |clar.cols| == |reps| && |clar.rows| == |ctx.rows|
    && forall c | 0 <= c < |reps| :: clar.cols[c] == ctx.cols[reps[c]]
  }

  lemma ClarifiedIsClarified(ctx: Context, clar: Context, classes: seq<set<nat>>, reps: seq<nat>)
    requires IsClarification(ctx, clar, classes, reps)
    ensures Clarified(clar)
  {
    forall c, d | 0 <= c < d < |clar.cols| ensures clar.cols[c] != clar.cols[d] {
      assert IsRep(ctx, reps[d]) && reps[c] < reps[d];
    }
  }

  method FindClasses(ctx: Context) returns (classes: seq<set<nat>>, reps: seq<nat>)
    ensures IsClassesOf(ctx, classes, reps) && forall a: nat | a < |ctx.cols| :: InSomeClass(classes, a)
  {
    hide ClassOf;
    var n := |ctx.cols|;
    var classOf := new int[n](a => -1);
    classes, reps := [], [];
    for a := 0 to n
      invariant IsClassesOf(ctx, classes, reps) && (forall c | 0 <= c < |reps| :: reps[c] < a) && |reps| <= a
      invariant forall b | 0 <= b < n :: if classOf[b] < 0 then !InSomeClass(classes, b) && b >= a
                                         else InSomeClass(classes, b)
    {
      if classOf[a] >= 0 {
        continue;
      }
      var cls := |classes|;
      var clsSet: set<nat> := {a};
      classOf[a] := cls;
      ghost var before := classOf[..];
      for b := a + 1 to n
        invariant forall x: nat :: x in clsSet <==> a <= x < b && ctx.cols[x] == ctx.cols[a]
        invariant forall x: nat | x < n :: classOf[x] == if x in clsSet then cls else before[x]
      {
        if classOf[b] >= 0 {
          OtherClass(ctx, classes, reps, a, b);
          continue;
        }
        if ctx.cols[a] == ctx.cols[b] {
          clsSet := clsSet + {b};
          classOf[b] := cls;
        }
      }
      NewClass(ctx, classes, reps, a, clsSet);
      classes, reps := classes + [clsSet], reps + [a];
    }
  }

  lemma OtherClass(ctx: Context, classes: seq<set<nat>>, reps: seq<nat>, a: nat, b: nat)
    requires IsClassesOf(ctx, classes, reps) && a < |ctx.cols| && b < |ctx.cols|
    requires !InSomeClass(classes, a) && InSomeClass(classes, b)
    ensures ctx.cols[a] != ctx.cols[b]
  {
    var c :| 0 <= c < |classes| && b in classes[c];
    assert a !in classes[c];
  }

  lemma NewClass(ctx: Context, classes: seq<set<nat>>, reps: seq<nat>, a: nat, cls: set<nat>)
    requires IsClassesOf(ctx, classes, reps) && a < |ctx.cols| && !InSomeClass(classes, a)
    requires (forall c | 0 <= c < |reps| :: reps[c] < a) && |reps| < |ctx.cols|
    requires forall x: nat :: x in cls <==> a <= x < |ctx.cols| && ctx.cols[x] == ctx.cols[a]
    requires forall b: nat | b < a :: InSomeClass(classes, b)
    ensures IsClassesOf(ctx, classes + [cls], reps + [a])
    ensures forall b: nat :: InSomeClass(classes + [cls], b) <==> InSomeClass(classes, b) || b in cls
  {
    hide IsClassesOf, InSomeClass;
    forall b: nat | b < a ensures ctx.cols[b] != ctx.cols[a] {
      OtherClass(ctx, classes, reps, a, b);
    }
    assert cls == ClassOf(ctx, a);
    Appended(ctx, classes, reps, a);
    forall b: nat ensures InSomeClass(classes + [cls], b) <==> InSomeClass(classes, b) || b in cls {
      InAppended(classes, cls, b);
    }
  }

  lemma Appended(ctx: Context, classes: seq<set<nat>>, reps: seq<nat>, a: nat)
    requires IsClassesOf(ctx, classes, reps) && IsRep(ctx, a) && |reps| < |ctx.cols|
    requires forall c | 0 <= c < |reps| :: reps[c] < a
    ensures IsClassesOf(ctx, classes + [ClassOf(ctx, a)], reps + [a])
  {
    hide IsRep, ClassOf;
  }

  lemma InAppended(classes: seq<set<nat>>, cls: set<nat>, b: nat)
    ensures InSomeClass(classes + [cls], b) <==> InSomeClass(classes, b) || b in cls
  {
    var classes' := classes + [cls];
    if InSomeClass(classes, b) {
      var c :| 0 <= c < |classes| && b in classes[c];
      assert classes'[c] == classes[c];
    }
    if b in cls { assert classes'[|classes|] == cls; }
  }

  /** The first n classes that object o has. */
  ghost function RowOf(ctx: Context, reps: seq<nat>, o: nat, n: nat): set<nat>
    requires n <= |reps| && forall c | 0 <= c < |reps| :: reps[c] < |ctx.cols|
  {
    set c: nat | c < n && o in ctx.cols[reps[c]]
  }

  ghost predicate Filled(ctx: Context, reps: seq<nat>, rows: seq<set<nat>>, done: nat, n: nat, last: nat)
    requires n <= last <= |reps| && forall c | 0 <= c < |reps| :: reps[c] < |ctx.cols|
  {
    |rows| == |ctx.rows| && forall o | 0 <= o < |rows| :: rows[o] == RowOf(ctx, reps, o, if o < done then last else n)
  }

  /** Sets the cells of the clarified context, class by class. */
  method ClarifyContext(ctx: Context) returns (clar: Context, classes: seq<set<nat>>, reps: seq<nat>)
    requires ctx.Valid()
    ensures IsClarification(ctx, clar, classes, reps)
  {
    classes, reps := FindClasses(ctx);
    var m := |ctx.rows|;
    var rows: seq<set<nat>> := seq(m, o => {});
    var cols: seq<set<nat>> := [];
    RepsApart(ctx, classes, reps);
    for c := 0 to |reps|
      invariant Filled(ctx, reps, rows, 0, c, c)
      invariant |cols| == c && forall k | 0 <= k < c :: cols[k] == ctx.cols[reps[k]]
    {
      var col: set<nat> := {};
      for o := 0 to m
        invariant Filled(ctx, reps, rows, o, c, c + 1)
        invariant forall x: nat :: x in col <==> x < o && x in ctx.cols[reps[c]]
      {
        RowStep(ctx, reps, o, c);
        if o in ctx.cols[reps[c]] {
          rows, col := rows[o := rows[o] + {c}], col + {o};
        }
      }
      assert col == ctx.cols[reps[c]];
      cols := cols + [col];
    }
    clar := Context(rows, cols);
    TableValid(ctx, rows, cols, reps);
  }

  lemma RowStep(ctx: Context, reps: seq<nat>, o: nat, c: nat)
    requires c < |reps| && forall c | 0 <= c < |reps| :: reps[c] < |ctx.cols|
    ensures RowOf(ctx, reps, o, c + 1) == RowOf(ctx, reps, o, c) + (if o in ctx.cols[reps[c]] then {c} else {})
  {}

  lemma TableValid(ctx: Context, rows: seq<set<nat>>, cols: seq<set<nat>>, reps: seq<nat>)
    requires ctx.Valid() && |cols| == |reps| <= |ctx.cols|
    requires forall k | 0 <= k < |reps| :: reps[k] < |ctx.cols| && cols[k] == ctx.cols[reps[k]]
    requires Filled(ctx, reps, rows, 0, |reps|, |reps|)
    ensures Context(rows, cols).Valid()
  {}

  // ---- sets of attributes, back and forth ----

  ghost function Conv(reps: seq<nat>, s: set<nat>): set<nat>
    requires s <= Range(|reps|)
  {
    set c | c in s :: reps[c]
  }

  ghost function Back(reps: seq<nat>, x: set<nat>): set<nat> {
    set c: nat | c < |reps| && reps[c] in x
  }

  lemma RepsApart(ctx: Context, classes: seq<set<nat>>, reps: seq<nat>)
    requires IsClassesOf(ctx, classes, reps)
    ensures NoRepeats(reps) && forall c | 0 <= c < |reps| :: reps[c] < |ctx.cols|
  {
    assert forall c | 0 <= c < |reps| :: IsRep(ctx, reps[c]);
  }

  lemma BackOfConv(reps: seq<nat>, s: set<nat>, x: set<nat>)
    requires NoRepeats(reps) && s <= Range(|reps|)
    ensures Back(reps, Conv(reps, s)) == s
    ensures Conv(reps, s) <= x <==> s <= Back(reps, x)
    ensures Back(reps, x + Conv(reps, s)) == Back(reps, x) + s
  {
    forall c: nat | c < |reps| ensures reps[c] in Conv(reps, s) <==> c in s {}
    if s <= Back(reps, x) {
      forall a | a in Conv(reps, s) ensures a in x {}
    }
    if Conv(reps, s) <= x {
      forall c | c in s ensures c in Back(reps, x) {
        assert reps[c] in Conv(reps, s);
      }
    }
  }

  lemma ConvExtent(ctx: Context, clar: Context, classes: seq<set<nat>>, reps: seq<nat>, s: set<nat>)
    requires ctx.Valid() && IsClarification(ctx, clar, classes, reps) && s <= Range(|reps|)
    ensures Conv(reps, s) <= ctx.Attributes() && ctx.Extent(Conv(reps, s)) == clar.Extent(s)
  {
    RepsApart(ctx, classes, reps);
    forall o: nat | o < |ctx.rows| ensures Conv(reps, s) <= ctx.rows[o] <==> s <= clar.rows[o] {
      assert forall c: nat | c < |reps| :: reps[c] in ctx.rows[o] <==> c in clar.rows[o];
      if Conv(reps, s) <= ctx.rows[o] {
        forall c | c in s ensures c in clar.rows[o] {
          assert reps[c] in Conv(reps, s);
        }
      }
    }
  }

  /** x holds either all of a class or nothing of it. */
  ghost predicate WholeClasses(classes: seq<set<nat>>, x: set<nat>) {
    forall c | 0 <= c < |classes| :: classes[c] <= x || classes[c] !! x
  }

  lemma RepInClass(ctx: Context, classes: seq<set<nat>>, reps: seq<nat>, c: nat)
    requires IsClassesOf(ctx, classes, reps) && c < |reps|
    ensures reps[c] in classes[c] && reps[c] < |ctx.cols|
  {
    assert IsRep(ctx, reps[c]);
  }

  /** Sets of whole classes have the extent of their representatives. */
  lemma WholeExtent(ctx: Context, clar: Context, classes: seq<set<nat>>, reps: seq<nat>, x: set<nat>)
    requires ctx.Valid() && IsClarification(ctx, clar, classes, reps) && x <= ctx.Attributes()
      && WholeClasses(classes, x)
    ensures ctx.Extent(x) == clar.Extent(Back(reps, x))
  {
    var s := Back(reps, x);
    ConvExtent(ctx, clar, classes, reps, s);
    ExtentAntitone(ctx, Conv(reps, s), x);
    forall o | o in ctx.Extent(Conv(reps, s)) ensures o in ctx.Extent(x) {
      forall a | a in x ensures a in ctx.rows[o] {
        assert InSomeClass(classes, a);
        var c :| 0 <= c < |classes| && a in classes[c];
        RepInClass(ctx, classes, reps, c);
        assert reps[c] in Conv(reps, s);
        assert o in ctx.cols[reps[c]] && ctx.cols[a] == ctx.cols[reps[c]];
      }
    }
  }

  /** An attribute is implied exactly when its class is. */
  lemma ImpliedByClass(ctx: Context, clar: Context, classes: seq<set<nat>>, reps: seq<nat>, x: set<nat>, s: set<nat>,
                       c: nat, a: nat)
    requires IsClarification(ctx, clar, classes, reps) && ctx.Extent(x) == clar.Extent(s) && c < |classes|
      && a in classes[c]
    ensures a in ctx.Closure(x) <==> c in clar.Closure(s)
  {}

  lemma ConvClosure(ctx: Context, clar: Context, classes: seq<set<nat>>, reps: seq<nat>, s: set<nat>)
    requires ctx.Valid() && IsClarification(ctx, clar, classes, reps) && s <= Range(|reps|)
    ensures Back(reps, ctx.Closure(Conv(reps, s))) == clar.Closure(s)
  {
    ConvExtent(ctx, clar, classes, reps, s);
    forall c: nat | c < |reps| ensures reps[c] in ctx.Closure(Conv(reps, s)) <==> c in clar.Closure(s) {
      RepInClass(ctx, classes, reps, c);
      ImpliedByClass(ctx, clar, classes, reps, Conv(reps, s), s, c, reps[c]);
    }
  }

  /** A set of whole classes is closed when the classes are. */
  lemma WholeClosed(ctx: Context, clar: Context, classes: seq<set<nat>>, reps: seq<nat>, x: set<nat>)
    requires ctx.Valid() && IsClarification(ctx, clar, classes, reps) && x <= ctx.Attributes()
      && WholeClasses(classes, x)
    requires clar.Closure(Back(reps, x)) == Back(reps, x)
    ensures ctx.Closure(x) == x
  {
    WholeExtent(ctx, clar, classes, reps, x);
    ClosureExtensive(ctx, x);
    forall a | a in ctx.Closure(x) ensures a in x {
      assert InSomeClass(classes, a);
      var c :| 0 <= c < |classes| && a in classes[c];
      ImpliedByClass(ctx, clar, classes, reps, x, Back(reps, x), c, a);
      RepInClass(ctx, classes, reps, c);
    }
  }
}
