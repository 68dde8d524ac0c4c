/** A formal context and its two derivation operators.

    Both tables of the context are kept, as in the source: `rows[o]` holds the
    attributes of object o and `cols[a]` the objects of attribute a.  Bit sets over a
    fixed universe are modelled as finite sets of naturals. */
module FormalContext {
  import opened FiniteSets

  /** C's INT_MAX, which the source uses for "the set has no first element". */
  const INT_MAX: int := 0x7FFF_FFFF

  datatype Context = Context(rows: seq<set<nat>>, cols: seq<set<nat>>) {

    /** The two tables mirror each other, and attribute numbers fit a C int. */
    ghost predicate Valid() {
      && |cols| < INT_MAX
      && (forall o | 0 <= o < |rows| :: forall a | a in rows[o] :: a < |cols|)
      && (forall a | 0 <= a < |cols| :: forall o | o in cols[a] :: o < |rows|)
      && (forall o, a | 0 <= o < |rows| && 0 <= a < |cols| :: a in rows[o] <==> o in cols[a])
    }

    function Objects(): set<nat> {
      Range(|rows|)
    }

    function Attributes(): set<nat> {
      Range(|cols|)
    }

    /** The objects that have every attribute of `attrs`. */
    ghost function Extent(attrs: set<nat>): set<nat> {
      set o: nat | o < |rows| && attrs <= rows[o]
    }

    /** The attributes shared by every object of `objs`. */
    ghost function Intent(objs: set<nat>): set<nat> {
      set a: nat | a < |cols| && objs <= cols[a]
    }

    ghost function Closure(attrs: set<nat>): set<nat> {
      Intent(Extent(attrs))
    }
  }

  /** The derivation operators form a Galois connection. */
  lemma Galois(ctx: Context, attrs: set<nat>, objs: set<nat>)
    requires ctx.Valid() && attrs <= ctx.Attributes() && objs <= ctx.Objects()
    ensures attrs <= ctx.Intent(objs) <==> objs <= ctx.Extent(attrs)
  {
    if attrs <= ctx.Intent(objs) {
      forall o | o in objs ensures o in ctx.Extent(attrs) {
        forall a | a in attrs ensures a in ctx.rows[o] {
          assert a in ctx.Intent(objs);
        }
      }
    }
    if objs <= ctx.Extent(attrs) {
      forall a | a in attrs ensures a in ctx.Intent(objs) {
        forall o | o in objs ensures o in ctx.cols[a] {
          assert o in ctx.Extent(attrs);
        }
      }
    }
  }

  lemma ExtentAntitone(ctx: Context, s: set<nat>, t: set<nat>)
    requires s <= t
    ensures ctx.Extent(t) <= ctx.Extent(s)
  {}

  lemma IntentAntitone(ctx: Context, s: set<nat>, t: set<nat>)
    requires s <= t
    ensures ctx.Intent(t) <= ctx.Intent(s)
  {}

  /** A'' is a closure operator on the attributes: extensive, monotone, idempotent. */
  lemma ClosureExtensive(ctx: Context, attrs: set<nat>)
    requires ctx.Valid() && attrs <= ctx.Attributes()
    ensures attrs <= ctx.Closure(attrs) <= ctx.Attributes()
  {
    Galois(ctx, attrs, ctx.Extent(attrs));
  }

  lemma ClosureMonotone(ctx: Context, s: set<nat>, t: set<nat>)
    requires s <= t
    ensures ctx.Closure(s) <= ctx.Closure(t)
  {
    ExtentAntitone(ctx, s, t);
    IntentAntitone(ctx, ctx.Extent(t), ctx.Extent(s));
  }

  lemma ClosureIdempotent(ctx: Context, attrs: set<nat>)
    requires ctx.Valid() && attrs <= ctx.Attributes()
    ensures ctx.Extent(ctx.Closure(attrs)) == ctx.Extent(attrs)
    ensures ctx.Closure(ctx.Closure(attrs)) == ctx.Closure(attrs)
  {
    var e := ctx.Extent(attrs);
    ClosureExtensive(ctx, attrs);
    ExtentAntitone(ctx, attrs, ctx.Closure(attrs));
    Galois(ctx, ctx.Closure(attrs), e);
  }
}
