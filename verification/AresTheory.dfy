/** What one more attribute does to the concepts that introduce something. */
module AresTheory {
  import opened FiniteSets
  import opened FormalContext

  /** The extent of the concept of object o when only the first k attributes count. */
  ghost function ObjExt(ctx: Context, k: nat, o: nat): set<nat>
    requires o < |ctx.rows|
  {
    ctx.Extent(ctx.rows[o] * Range(k))
  }

  ghost predicate ObjIntro(ctx: Context, k: nat, x: set<nat>) {
    exists o: nat :: o < |ctx.rows| && x == ObjExt(ctx, k, o)
  }

  ghost predicate AttrIntro(ctx: Context, k: nat, x: set<nat>) {
    exists a: nat :: a < k && a < |ctx.cols| && x == ctx.cols[a]
  }

  /** x introduces something among the first k attributes; the algorithm starts from the set
      of all objects even when there is no object. */
  ghost predicate Intro(ctx: Context, k: nat, x: set<nat>) {
    ObjIntro(ctx, k, x) || AttrIntro(ctx, k, x) || (k == 0 && x == ctx.Objects())
  }

  /** The objects and attributes that x introduces. */
  ghost function Objs(ctx: Context, k: nat, x: set<nat>): set<nat> {
    set o: nat | o < |ctx.rows| && ObjExt(ctx, k, o) == x
  }

  ghost function Attrs(ctx: Context, k: nat, x: set<nat>): set<nat> {
    set a: nat | a < |ctx.cols| && a < k && ctx.cols[a] == x
  }

  lemma OwnExtent(ctx: Context, k: nat, o: nat)
    requires ctx.Valid() && o < |ctx.rows|
    ensures o in ObjExt(ctx, k, o) && ObjExt(ctx, k, o) <= ctx.Objects()
  {}

  /** Introducing sets are closed: with an object they hold its whole extent. */
  lemma HoldsExtent(ctx: Context, k: nat, x: set<nat>, o: nat)
    requires ctx.Valid() && Intro(ctx, k, x) && o in x && o < |ctx.rows|
    ensures ObjExt(ctx, k, o) <= x
  {
    if ObjIntro(ctx, k, x) {
      var p: nat :| p < |ctx.rows| && x == ObjExt(ctx, k, p);
      ExtentAntitone(ctx, ctx.rows[p] * Range(k), ctx.rows[o] * Range(k));
    } else if AttrIntro(ctx, k, x) {
      var a: nat :| a < k && a < |ctx.cols| && x == ctx.cols[a];
      forall p | p in ObjExt(ctx, k, o) ensures p in ctx.cols[a] {
        assert a in ctx.rows[o] * Range(k);
      }
    } else {
      OwnExtent(ctx, k, o);
    }
  }

  lemma IntroInside(ctx: Context, k: nat, x: set<nat>)
    requires ctx.Valid() && Intro(ctx, k, x)
    ensures x <= ctx.Objects()
  {}

  /** Attribute k cuts the extents of its objects and leaves the others. */
  lemma ObjExtStep(ctx: Context, k: nat, o: nat)
    requires ctx.Valid() && k < |ctx.cols| && o < |ctx.rows|
    ensures ObjExt(ctx, k + 1, o) == if o in ctx.cols[k] then ObjExt(ctx, k, o) * ctx.cols[k] else ObjExt(ctx, k, o)
  {
    var r := ctx.rows[o];
    if o in ctx.cols[k] {
      assert r * Range(k + 1) == r * Range(k) + {k};
    } else {
      assert r * Range(k + 1) == r * Range(k);
    }
  }

  lemma AttrsStep(ctx: Context, k: nat, x: set<nat>)
    requires k < |ctx.cols|
    ensures Attrs(ctx, k + 1, x) == Attrs(ctx, k, x) + (if x == ctx.cols[k] then {k} else {})
  {}

  // ---- the column of attribute k is there already ----

  lemma SameObjects(ctx: Context, k: nat, x: set<nat>)
    requires ctx.Valid() && k < |ctx.cols| && Intro(ctx, k, ctx.cols[k])
    ensures Objs(ctx, k + 1, x) == Objs(ctx, k, x) && (ObjIntro(ctx, k + 1, x) <==> ObjIntro(ctx, k, x))
  {
    forall o: nat | o < |ctx.rows| ensures ObjExt(ctx, k + 1, o) == ObjExt(ctx, k, o) {
      ObjExtStep(ctx, k, o);
      if o in ctx.cols[k] { HoldsExtent(ctx, k, ctx.cols[k], o); }
    }
    hide ObjExt;
    if ObjIntro(ctx, k, x) {
      var o: nat :| o < |ctx.rows| && x == ObjExt(ctx, k, o);
      assert x == ObjExt(ctx, k + 1, o);
    }
    if ObjIntro(ctx, k + 1, x) {
      var o: nat :| o < |ctx.rows| && x == ObjExt(ctx, k + 1, o);
      assert x == ObjExt(ctx, k, o);
    }
  }

  /** Nothing changes but the label of the column. */
  lemma KnownColumn(ctx: Context, k: nat, x: set<nat>)
    requires ctx.Valid() && k < |ctx.cols| && Intro(ctx, k, ctx.cols[k])
    ensures Intro(ctx, k + 1, x) <==> Intro(ctx, k, x)
    ensures Objs(ctx, k + 1, x) == Objs(ctx, k, x)
  {
    SameObjects(ctx, k, x);
    SameObjects(ctx, k, ctx.cols[k]);
    hide ObjIntro;
    if k == 0 && !ObjIntro(ctx, k, ctx.cols[k]) { assert ctx.cols[k] == ctx.Objects(); }
    if AttrIntro(ctx, k + 1, x) && !AttrIntro(ctx, k, x) { assert x == ctx.cols[k]; }
    if AttrIntro(ctx, k, x) {
      var a: nat :| a < k && a < |ctx.cols| && x == ctx.cols[a];
    }
    if k == 0 && x == ctx.Objects() { TopIntroduced(ctx); }
  }

  /** The top introduces the objects, if any; without objects it is every column. */
  lemma TopIntroduced(ctx: Context)
    requires ctx.Valid() && |ctx.cols| > 0 && Intro(ctx, 0, ctx.cols[0])
    ensures Intro(ctx, 1, ctx.Objects())
  {
    if |ctx.rows| > 0 {
      TopIsObject(ctx);
      SameObjects(ctx, 0, ctx.Objects());
    } else {
      assert ctx.cols[0] == ctx.Objects() && AttrIntro(ctx, 1, ctx.cols[0]);
    }
  }

  // ---- the column is new ----

  /** The objects of x that attribute k moves away. */
  ghost function Moved(ctx: Context, k: nat, x: set<nat>): set<nat>
    requires k < |ctx.cols|
  {
    Objs(ctx, k, x) * ctx.cols[k]
  }

  /** Neither contains the other. */
  ghost predicate Apart(x: set<nat>, y: set<nat>) {
    !(x <= y) && !(y <= x)
  }

  /** x introduces nothing any more. */
  ghost predicate Dropped(ctx: Context, k: nat, x: set<nat>)
    requires k < |ctx.cols|
  {
    !(x <= ctx.cols[k]) && Moved(ctx, k, x) != {} && Attrs(ctx, k, x) == {} && Objs(ctx, k, x) <= ctx.cols[k]
  }

  /** y is what attribute k cuts out of a set apart from its column that loses objects. */
  ghost predicate CutOut(ctx: Context, k: nat, y: set<nat>)
    requires k < |ctx.cols|
  {
    exists x :: IsCut(ctx, k, x, y)
  }

  ghost predicate IsCut(ctx: Context, k: nat, x: set<nat>, y: set<nat>)
    requires k < |ctx.cols|
  {
    Intro(ctx, k, x) && Apart(x, ctx.cols[k]) && Moved(ctx, k, x) != {} && y == x * ctx.cols[k]
  }

  lemma MovedIsObject(ctx: Context, k: nat, x: set<nat>)
    requires k < |ctx.cols| && Moved(ctx, k, x) != {}
    ensures ObjIntro(ctx, k, x)
      && exists o :: o in Moved(ctx, k, x) && o < |ctx.rows| && ObjExt(ctx, k, o) == x && o in ctx.cols[k]
  {
    var o :| o in Moved(ctx, k, x);
  }

  /** A cut is no introducing set of the first k attributes: an object of it would have a
      larger extent. */
  lemma CutIsNew(ctx: Context, k: nat, x: set<nat>, y: set<nat>, z: set<nat>)
    requires ctx.Valid() && k < |ctx.cols| && IsCut(ctx, k, x, y) && Intro(ctx, k, z)
    ensures y < z ==> x <= z
    ensures y != z && y < ctx.cols[k] && y < x
  {
    MovedIsObject(ctx, k, x);
    var o :| o in Moved(ctx, k, x) && o < |ctx.rows| && ObjExt(ctx, k, o) == x && o in ctx.cols[k];
    OwnExtent(ctx, k, o);
    assert o in y;
    if y <= z { HoldsExtent(ctx, k, z, o); }
  }

  /** Cuts of different sets are different, and ordered as the sets. */
  lemma CutsOrdered(ctx: Context, k: nat, x: set<nat>, y: set<nat>, x': set<nat>, y': set<nat>)
    requires ctx.Valid() && k < |ctx.cols| && IsCut(ctx, k, x, y) && IsCut(ctx, k, x', y')
    ensures y <= y' <==> x <= x'
  {
    if y <= y' { CutIsNewAux(ctx, k, x, y, x'); }
  }

  lemma CutIsNewAux(ctx: Context, k: nat, x: set<nat>, y: set<nat>, z: set<nat>)
    requires ctx.Valid() && k < |ctx.cols| && IsCut(ctx, k, x, y) && Intro(ctx, k, z) && y <= z
    ensures x <= z
  {
    CutIsNew(ctx, k, x, y, z);
  }

  /** Objects of the column with a larger extent have the column itself from now on. */
  lemma NewObjects(ctx: Context, k: nat, y: set<nat>)
    requires ctx.Valid() && k < |ctx.cols| && !Intro(ctx, k, ctx.cols[k])
    ensures Intro(ctx, k, y) && y <= ctx.cols[k] ==> Objs(ctx, k + 1, y) == Objs(ctx, k, y)
    ensures Intro(ctx, k, y) && !(y <= ctx.cols[k]) ==> Objs(ctx, k + 1, y) == Objs(ctx, k, y) - ctx.cols[k]
  {
    var col := ctx.cols[k];
    forall o: nat | o < |ctx.rows| && Intro(ctx, k, y)
      ensures ObjExt(ctx, k + 1, o) == y <==> ObjExt(ctx, k, o) == y && (o !in col || y <= col)
    {
      ObjExtStep(ctx, k, o);
      OwnExtent(ctx, k, o);
      if ObjExt(ctx, k + 1, o) == y { HoldsExtent(ctx, k, y, o); }
    }
  }

  // ---- who introduces something after attribute k ----

  lemma ObjectNext(ctx: Context, k: nat, o: nat)
    requires ctx.Valid() && k < |ctx.cols| && o < |ctx.rows|
    ensures var y := ObjExt(ctx, k + 1, o);
      y == ctx.cols[k] || (Intro(ctx, k, y) && !Dropped(ctx, k, y)) || CutOut(ctx, k, y)
  {
    var x, col := ObjExt(ctx, k, o), ctx.cols[k];
    ObjExtStep(ctx, k, o);
    assert ObjIntro(ctx, k, x) && o in Objs(ctx, k, x);
    if o in col {
      assert o in Moved(ctx, k, x);
      if x <= col {
        assert x * col == x;
      } else if col <= x {
        assert x * col == col;
      } else {
        assert IsCut(ctx, k, x, x * col);
      }
    }
  }

  lemma StillIntro(ctx: Context, k: nat, y: set<nat>)
    requires ctx.Valid() && k < |ctx.cols| && Intro(ctx, k, y) && !Dropped(ctx, k, y)
    ensures Intro(ctx, k + 1, y)
  {
    if |ctx.rows| > 0 { TopIsObject(ctx); }
    if AttrIntro(ctx, k, y) {
      var a: nat :| a < k && a < |ctx.cols| && y == ctx.cols[a];
      assert AttrIntro(ctx, k + 1, y);
    } else if ObjIntro(ctx, k, y) {
      assert Attrs(ctx, k, y) == {};
      var o := StayingObject(ctx, k, y);
    } else {
      assert y == ctx.cols[k] && AttrIntro(ctx, k + 1, y);
    }
  }

  lemma TopIsObject(ctx: Context)
    requires |ctx.rows| > 0
    ensures ObjIntro(ctx, 0, ctx.Objects())
  {
    assert ctx.rows[0] * Range(0) == {};
    assert ObjExt(ctx, 0, 0) == ctx.Objects();
  }

  lemma StayingObject(ctx: Context, k: nat, y: set<nat>) returns (o: nat)
    requires ctx.Valid() && k < |ctx.cols| && ObjIntro(ctx, k, y) && !Dropped(ctx, k, y) && Attrs(ctx, k, y) == {}
    ensures o < |ctx.rows| && ObjExt(ctx, k + 1, o) == y
  {
    var p: nat :| p < |ctx.rows| && y == ObjExt(ctx, k, p);
    assert p in Objs(ctx, k, y);
    if y <= ctx.cols[k] || p !in ctx.cols[k] {
      o := p;
      ObjExtStep(ctx, k, o);
      OwnExtent(ctx, k, o);
      assert y <= ctx.cols[k] ==> y * ctx.cols[k] == y;
    } else {
      assert p in Moved(ctx, k, y);
      o :| o in Objs(ctx, k, y) && o !in ctx.cols[k];
      ObjExtStep(ctx, k, o);
    }
  }

  /** Exactly: the column, what is not dropped, and the cuts. */
  lemma IntroNext(ctx: Context, k: nat, y: set<nat>)
    requires ctx.Valid() && k < |ctx.cols|
    ensures Intro(ctx, k + 1, y) <==> y == ctx.cols[k] || (Intro(ctx, k, y) && !Dropped(ctx, k, y)) || CutOut(ctx, k, y)
  {
    hide Dropped;
    if ObjIntro(ctx, k + 1, y) {
      var o: nat :| o < |ctx.rows| && y == ObjExt(ctx, k + 1, o);
      ObjectNext(ctx, k, o);
    }
    if AttrIntro(ctx, k + 1, y) {
      var a: nat :| a < k + 1 && a < |ctx.cols| && y == ctx.cols[a];
      if a < k { AttributeStays(ctx, k, y, a); }
    }
    if y == ctx.cols[k] { assert AttrIntro(ctx, k + 1, y); }
    if Intro(ctx, k, y) && !Dropped(ctx, k, y) { StillIntro(ctx, k, y); }
    if CutOut(ctx, k, y) {
      var x :| IsCut(ctx, k, x, y);
      MovedIsObject(ctx, k, x);
      var o :| o in Moved(ctx, k, x) && o < |ctx.rows| && ObjExt(ctx, k, o) == x && o in ctx.cols[k];
      ObjExtStep(ctx, k, o);
      assert ObjIntro(ctx, k + 1, y);
    }
  }

  lemma AttributeStays(ctx: Context, k: nat, y: set<nat>, a: nat)
    requires k < |ctx.cols| && a < k && y == ctx.cols[a]
    ensures Intro(ctx, k, y) && !Dropped(ctx, k, y)
  {
    assert AttrIntro(ctx, k, y) && a in Attrs(ctx, k, y);
  }

  // ---- labels ----

  lemma CutLabels(ctx: Context, k: nat, x: set<nat>, y: set<nat>)
    requires ctx.Valid() && k < |ctx.cols| && !Intro(ctx, k, ctx.cols[k]) && IsCut(ctx, k, x, y)
    ensures Objs(ctx, k + 1, y) == Moved(ctx, k, x) && Attrs(ctx, k + 1, y) == {}
  {
    hide ObjExt, Intro, IsCut, Context.Valid;
    forall o: nat | o < |ctx.rows| ensures ObjExt(ctx, k + 1, o) == y <==> o in ctx.cols[k] && ObjExt(ctx, k, o) == x {
      CutLabel(ctx, k, x, y, o);
    }
    CutInsideColumn(ctx, k, x, y);
    forall a: nat | a < k ensures ctx.cols[a] != y {
      CutIsNoColumn(ctx, k, x, y, a);
    }
  }

  lemma CutInsideColumn(ctx: Context, k: nat, x: set<nat>, y: set<nat>)
    requires ctx.Valid() && k < |ctx.cols| && IsCut(ctx, k, x, y)
    ensures y != ctx.cols[k]
  {
    CutIsNew(ctx, k, x, y, x);
  }

  lemma CutIsNoColumn(ctx: Context, k: nat, x: set<nat>, y: set<nat>, a: nat)
    requires ctx.Valid() && k < |ctx.cols| && IsCut(ctx, k, x, y) && a < k
    ensures ctx.cols[a] != y
  {
    assert AttrIntro(ctx, k, ctx.cols[a]);
    CutIsNew(ctx, k, x, y, ctx.cols[a]);
  }

  lemma CutLabel(ctx: Context, k: nat, x: set<nat>, y: set<nat>, o: nat)
    requires ctx.Valid() && k < |ctx.cols| && IsCut(ctx, k, x, y) && o < |ctx.rows|
    ensures ObjExt(ctx, k + 1, o) == y <==> o in ctx.cols[k] && ObjExt(ctx, k, o) == x
  {
    ObjExtStep(ctx, k, o);
    var z, col := ObjExt(ctx, k, o), ctx.cols[k];
    assert ObjIntro(ctx, k, z);
    CutIsNew(ctx, k, x, y, z);
    if o in col && z * col == y {
      assert o in Moved(ctx, k, z);
      assert z <= col ==> z * col == z;
      assert col <= z ==> z * col == col;
      assert IsCut(ctx, k, z, y);
      CutsOrdered(ctx, k, x, y, z, y);
      CutsOrdered(ctx, k, z, y, x, y);
    }
  }

  lemma ColumnLabel(ctx: Context, k: nat, o: nat)
    requires ctx.Valid() && k < |ctx.cols| && !Intro(ctx, k, ctx.cols[k]) && o < |ctx.rows|
    ensures ObjExt(ctx, k + 1, o) == ctx.cols[k] <==> o in ctx.cols[k] && ctx.cols[k] <= ObjExt(ctx, k, o)
  {
    ObjExtStep(ctx, k, o);
    assert ObjIntro(ctx, k, ObjExt(ctx, k, o));
    hide ObjExt, Context.Valid;
  }

  lemma ColumnLabels(ctx: Context, k: nat)
    requires ctx.Valid() && k < |ctx.cols| && !Intro(ctx, k, ctx.cols[k])
    ensures Objs(ctx, k + 1, ctx.cols[k]) == set o: nat | o < |ctx.rows| && o in ctx.cols[k]
      && ctx.cols[k] <= ObjExt(ctx, k, o)
    ensures Attrs(ctx, k + 1, ctx.cols[k]) == {k}
  {
    forall o: nat | o < |ctx.rows|
      ensures ObjExt(ctx, k + 1, o) == ctx.cols[k] <==> o in ctx.cols[k] && ctx.cols[k] <= ObjExt(ctx, k, o) {
      ColumnLabel(ctx, k, o);
    }
    hide ObjExt;
    forall a: nat | a < k && a < |ctx.cols| ensures ctx.cols[a] != ctx.cols[k] {
      assert AttrIntro(ctx, k, ctx.cols[a]);
    }
  }

  // ---- reduced extents ----

  /** o belongs to some set of the family strictly inside x. */
  ghost predicate InSmaller(family: iset<set<nat>>, x: set<nat>, o: nat) {
    exists y :: y in family && y < x && o in y
  }

  /** The family holds the introducing sets, and besides them only cuts of sets that do not
      contain x. */
  ghost predicate FamilyAt(ctx: Context, k: nat, family: iset<set<nat>>, x: set<nat>)
    requires k < |ctx.cols|
  {
    && (forall y :: Intro(ctx, k, y) ==> y in family)
    && forall y | y in family && !Intro(ctx, k, y) :: exists z :: IsCut(ctx, k, z, y) && !(x <= z)
  }

  lemma NotInside(ctx: Context, k: nat, x: set<nat>, o: nat, z: set<nat>)
    requires ctx.Valid() && Intro(ctx, k, z) && o < |ctx.rows| && x <= ObjExt(ctx, k, o) && !(x <= z)
    ensures o !in z
  {
    if o in z { HoldsExtent(ctx, k, z, o); }
  }

  /** Reduced by the smaller sets, x keeps exactly the objects it introduces. */
  lemma ReducedIsObjs(ctx: Context, k: nat, family: iset<set<nat>>, x: set<nat>, o: nat)
    requires ctx.Valid() && k < |ctx.cols| && Intro(ctx, k, x) && FamilyAt(ctx, k, family, x)
    ensures o in x && !InSmaller(family, x, o) <==> o in Objs(ctx, k, x)
  {
    IntroInside(ctx, k, x);
    if o in Objs(ctx, k, x) {
      OwnExtent(ctx, k, o);
      forall y | y in family && y < x ensures o !in y {
        if Intro(ctx, k, y) {
          NotInside(ctx, k, x, o, y);
        } else {
          var z :| IsCut(ctx, k, z, y) && !(x <= z);
          NotInside(ctx, k, x, o, z);
        }
      }
    }
    if o in x && !InSmaller(family, x, o) {
      HoldsExtent(ctx, k, x, o);
      OwnExtent(ctx, k, o);
      assert ObjIntro(ctx, k, ObjExt(ctx, k, o)) && ObjExt(ctx, k, o) in family;
    }
  }

  /** The family holds everything strictly inside the column after attribute k. */
  ghost predicate FamilyInside(ctx: Context, k: nat, family: iset<set<nat>>)
    requires k < |ctx.cols|
  {
    forall y | y < ctx.cols[k] :: y in family <==> Intro(ctx, k, y) || CutOut(ctx, k, y)
  }

  /** Reduced by all that is inside, the column keeps the objects it introduces. */
  lemma ReducedColumn(ctx: Context, k: nat, family: iset<set<nat>>, o: nat)
    requires ctx.Valid() && k < |ctx.cols| && !Intro(ctx, k, ctx.cols[k]) && FamilyInside(ctx, k, family)
    ensures o in ctx.cols[k] && !InSmaller(family, ctx.cols[k], o) <==> o in Objs(ctx, k + 1, ctx.cols[k])
  {
    ColumnLabels(ctx, k);
    var col := ctx.cols[k];
    if o in col && !InSmaller(family, col, o) {
      SomethingInside(ctx, k, family, o);
    }
    if o in col && o < |ctx.rows| && col <= ObjExt(ctx, k, o) {
      forall y | y in family && y < col ensures o !in y {
        if Intro(ctx, k, y) {
          NotInside(ctx, k, col, o, y);
        } else {
          var x :| IsCut(ctx, k, x, y);
          NotInside(ctx, k, col, o, x);
        }
      }
    }
  }

  lemma SomethingInside(ctx: Context, k: nat, family: iset<set<nat>>, o: nat)
    requires ctx.Valid() && k < |ctx.cols| && !Intro(ctx, k, ctx.cols[k]) && FamilyInside(ctx, k, family)
      && o in ctx.cols[k]
    ensures o < |ctx.rows| && (ctx.cols[k] <= ObjExt(ctx, k, o) || InSmaller(family, ctx.cols[k], o))
  {
    var x, col := ObjExt(ctx, k, o), ctx.cols[k];
    OwnExtent(ctx, k, o);
    assert ObjIntro(ctx, k, x) && o in Moved(ctx, k, x);
    if !(col <= x) {
      if x <= col {
        assert x < col && x in family;
      } else {
        var y := x * col;
        assert IsCut(ctx, k, x, y);
        CutIsNew(ctx, k, x, y, x);
        assert y in family;
      }
    }
  }
}
