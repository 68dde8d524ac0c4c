/** The objects behind a column, in the order of the sizes of their rows: which objects share
    a row, and which extents the rows have. */
module CeresObjects {
  import opened FiniteSets
  import opened FormalContext
  import opened CeresTheory
  import BucketSort

  /** The objects of the column that are not its own, smaller rows first. */
  ghost predicate Listing(ctx: Context, e: set<nat>, list: seq<nat>) {
    && NoRepeats(list) && (forall o: nat :: o in list <==> o < |ctx.rows| && o in e && ctx.Extent(ctx.rows[o]) != e)
    && (forall l | 0 <= l < |list| :: list[l] < |ctx.rows|)
    && forall k, l | 0 <= k <= l < |list| :: |ctx.rows[list[k]]| <= |ctx.rows[list[l]]|
  }

  /** Some object before place i has row r. */
  ghost predicate SeenRow(ctx: Context, list: seq<nat>, i: nat, r: set<nat>)
    requires forall l | 0 <= l < |list| :: list[l] < |ctx.rows|
  {
    exists k :: 0 <= k < i && k < |list| && ctx.rows[list[k]] == r
  }

  /** Consumed from place i on: what shares a covered row with an object before i. */
  ghost predicate ConsumedOk(ctx: Context, list: seq<nat>, i: nat, covered: set<nat>, consumed: seq<bool>)
    requires forall l | 0 <= l < |list| :: list[l] < |ctx.rows|
  {
    && |consumed| == |list|
    && forall j | i <= j < |list| ::
      consumed[j] <==> ctx.rows[list[j]] <= covered && SeenRow(ctx, list, i, ctx.rows[list[j]])
  }

  method ListObjects(ctx: Context, e: set<nat>, own: set<nat>) returns (list: seq<nat>)
    requires ctx.Valid() && own == ObjsWith(ctx, e)
    ensures Listing(ctx, e, list)
  {
    hide Context.Valid, NoRepeats;
    var raw := RawObjects(ctx, e, own);
    RowsWithin(ctx);
    var keys: seq<nat> := seq(|raw|, i requires 0 <= i < |raw| && raw[i] < |ctx.rows| => |ctx.rows[raw[i]]|);
    var places := BucketSort.Sort(keys, |ctx.cols|);
    list := seq(|places|, p requires 0 <= p < |places| && places[p] < |raw| => raw[places[p]]);
    ListedInOrder(ctx, e, raw, keys, places, list);
  }

  method RawObjects(ctx: Context, e: set<nat>, own: set<nat>) returns (raw: seq<nat>)
    ensures NoRepeats(raw) && (forall o: nat :: o in raw <==> o < |ctx.rows| && o in e && o !in own)
    ensures forall i | 0 <= i < |raw| :: raw[i] < |ctx.rows|
  {
    raw := [];
    for o := 0 to |ctx.rows|
      invariant NoRepeats(raw) && forall p: nat :: p in raw <==> p < o && p in e && p !in own
    {
      if o in e && o !in own {
        assert forall i | 0 <= i < |raw| :: raw[i] in raw;
        raw := raw + [o];
      }
    }
    assert forall i | 0 <= i < |raw| :: raw[i] in raw;
  }

  lemma ListedInOrder(ctx: Context, e: set<nat>, raw: seq<nat>, keys: seq<nat>, places: seq<nat>, list: seq<nat>)
    requires NoRepeats(raw) && (forall o: nat :: o in raw <==> o < |ctx.rows| && o in e && ctx.Extent(ctx.rows[o]) != e)
    requires |keys| == |raw| && forall i | 0 <= i < |raw| :: raw[i] < |ctx.rows| && keys[i] == |ctx.rows[raw[i]]|
    requires BucketSort.IsSortedOrder(keys, places) && |list| == |places|
      && forall p | 0 <= p < |list| :: places[p] < |raw| && list[p] == raw[places[p]]
    ensures Listing(ctx, e, list)
  {
    forall o: nat ensures o in list <==> o in raw {
      if o in raw {
        var i: nat :| i < |raw| && raw[i] == o;
        assert i in places;
        var p :| 0 <= p < |places| && places[p] == i;
        assert list[p] == o;
      }
    }
    forall k, l | 0 <= k < l < |list| ensures list[k] != list[l] && |ctx.rows[list[k]]| <= |ctx.rows[list[l]]| {
      assert places[k] != places[l] && keys[places[k]] <= keys[places[l]];
    }
  }

  lemma RowsWithin(ctx: Context)
    requires ctx.Valid()
    ensures forall o | 0 <= o < |ctx.rows| :: |ctx.rows[o]| <= |ctx.cols|
  {
    forall o | 0 <= o < |ctx.rows| ensures |ctx.rows[o]| <= |ctx.cols| {
      SubsetCard(ctx.rows[o], ctx.Attributes());
      RangeCard(|ctx.cols|);
    }
  }

  /** No row before place i includes that of object i strictly. */
  lemma SeenAbove(ctx: Context, list: seq<nat>, e: set<nat>, i: nat, r: set<nat>)
    requires Listing(ctx, e, list) && i < |list| && ctx.rows[list[i]] <= r && SeenRow(ctx, list, i, r)
    ensures SeenRow(ctx, list, i, ctx.rows[list[i]])
  {
    var k :| 0 <= k < i && k < |list| && ctx.rows[list[k]] == r;
    assert |ctx.rows[list[k]]| <= |ctx.rows[list[i]]|;
    SubsetCard(ctx.rows[list[i]], r);
  }

  /** A row that includes that of an object not consumed, further back, has not been consumed
      before. */
  lemma NotConsumedAbove(ctx: Context, list: seq<nat>, e: set<nat>, i: nat, covered: set<nat>, consumed: seq<bool>,
                         j: nat)
    requires Listing(ctx, e, list) && ConsumedOk(ctx, list, i, covered, consumed) && i <= j < |list|
    requires !consumed[i] && ctx.rows[list[i]] <= covered && ctx.rows[list[i]] <= ctx.rows[list[j]]
    ensures !consumed[j]
  {
    assert forall l | 0 <= l < |list| :: list[l] < |ctx.rows|;
    hide Listing, SeenRow;
    if SeenRow(ctx, list, i, ctx.rows[list[j]]) { SeenAbove(ctx, list, e, i, ctx.rows[list[j]]); }
  }

  /** The objects from place i to j whose rows include that of object i. */
  ghost predicate Gathered(ctx: Context, list: seq<nat>, i: nat, j: nat, ext: set<nat>, same: bool)
    requires i < |list| && j <= |list| && forall l | 0 <= l < |list| :: list[l] < |ctx.rows|
  {
    forall o: nat :: o in ext <==> GatheredAt(ctx, list, i, j, o, same)
  }

  ghost predicate GatheredAt(ctx: Context, list: seq<nat>, i: nat, j: nat, o: nat, same: bool)
    requires i < |list| && j <= |list| && forall l | 0 <= l < |list| :: list[l] < |ctx.rows|
  {
    exists l :: i <= l < j && list[l] == o &&
      (if same then ctx.rows[o] == ctx.rows[list[i]] else ctx.rows[list[i]] <= ctx.rows[o])
  }

  lemma GatherMore(ctx: Context, list: seq<nat>, i: nat, j: nat, ext: set<nat>, same: bool)
    requires i < |list| && i <= j < |list| && (forall l | 0 <= l < |list| :: list[l] < |ctx.rows|)
      && Gathered(ctx, list, i, j, ext, same)
    ensures Gathered(ctx, list, i, j + 1,
      if (if same then ctx.rows[list[j]] == ctx.rows[list[i]] else ctx.rows[list[i]] <= ctx.rows[list[j]])
        then ext + {list[j]} else ext, same)
  {
    var take := if same then ctx.rows[list[j]] == ctx.rows[list[i]] else ctx.rows[list[i]] <= ctx.rows[list[j]];
    var n := j + 1;
    forall o: nat ensures GatheredAt(ctx, list, i, n, o, same)
      <==> GatheredAt(ctx, list, i, j, o, same) || (take && o == list[j]) {
      if GatheredAt(ctx, list, i, n, o, same) {
        var l :| i <= l < n && list[l] == o
          && (if same then ctx.rows[o] == ctx.rows[list[i]] else ctx.rows[list[i]] <= ctx.rows[o]);
      }
    }
  }

  lemma GatherFirst(ctx: Context, list: seq<nat>, i: nat, same: bool)
    requires i < |list| && forall l | 0 <= l < |list| :: list[l] < |ctx.rows|
    ensures Gathered(ctx, list, i, i + 1, {list[i]}, same)
  {
    var n := i + 1;
    forall o: nat ensures o in {list[i]} <==> GatheredAt(ctx, list, i, n, o, same) {
      if o == list[i] { assert list[i] == o; }
    }
  }

  /** Gathered to the end, these are the extent of the row and the objects that share it. */
  lemma GatheredAll(ctx: Context, list: seq<nat>, e: set<nat>, i: nat, covered: set<nat>, consumed: seq<bool>,
                    ext: set<nat>, same: bool)
    requires ctx.Valid() && Listing(ctx, e, list) && (exists a :: 0 <= a < |ctx.cols| && ctx.cols[a] == e)
    requires i < |list| && ConsumedOk(ctx, list, i, covered, consumed) && !consumed[i] && ctx.rows[list[i]] <= covered
    requires Gathered(ctx, list, i, |list|, ext, same)
    ensures ext == if same then ObjsWith(ctx, ctx.Extent(ctx.rows[list[i]])) else ctx.Extent(ctx.rows[list[i]])
  {
    var oi := list[i];
    assert oi in list;
    var x := ctx.Extent(ctx.rows[oi]);
    forall o: nat
      ensures o in ext <==>
        o < |ctx.rows| && (if same then ctx.Extent(ctx.rows[o]) == x else ctx.rows[oi] <= ctx.rows[o])
    {
      assert o in ext <==> GatheredAt(ctx, list, i, |list|, o, same);
      if o < |ctx.rows| { RowClosed(ctx, oi, o); }
      if o < |ctx.rows| && ctx.rows[oi] <= ctx.rows[o] {
        BehindColumn(ctx, e, oi, o);
        var l := PlaceBehind(ctx, list, e, i, covered, consumed, o);
      }
    }
  }

  lemma BehindColumn(ctx: Context, e: set<nat>, oi: nat, o: nat)
    requires ctx.Valid() && (exists a :: 0 <= a < |ctx.cols| && ctx.cols[a] == e) && oi < |ctx.rows| && o < |ctx.rows|
    requires oi in e && ctx.Extent(ctx.rows[oi]) != e && ctx.rows[oi] <= ctx.rows[o]
    ensures o in e && ctx.Extent(ctx.rows[o]) != e
  {
    var g :| 0 <= g < |ctx.cols| && ctx.cols[g] == e;
    InColumn(ctx, g, oi);
    RowClosed(ctx, oi, o);
    assert g in ctx.rows[oi];
  }

  lemma PlaceBehind(ctx: Context, list: seq<nat>, e: set<nat>, i: nat, covered: set<nat>, consumed: seq<bool>, o: nat)
      returns (l: nat)
    requires Listing(ctx, e, list) && i < |list| && ConsumedOk(ctx, list, i, covered, consumed) && !consumed[i]
      && ctx.rows[list[i]] <= covered
    requires o in list && o < |ctx.rows| && ctx.rows[list[i]] <= ctx.rows[o]
    ensures i <= l < |list| && list[l] == o
  {
    l :| 0 <= l < |list| && list[l] == o;
    assert l < i ==> SeenRow(ctx, list, i, ctx.rows[o]);
    hide SeenRow, Listing;
    if SeenRow(ctx, list, i, ctx.rows[o]) { SeenAbove(ctx, list, e, i, ctx.rows[o]); }
  }

  /** consumed' also has what shares the row of object i. */
  lemma ConsumedNext(ctx: Context, list: seq<nat>, i: nat, covered: set<nat>, consumed: seq<bool>, consumed': seq<bool>)
    requires (forall l | 0 <= l < |list| :: list[l] < |ctx.rows|) && i < |list|
      && ConsumedOk(ctx, list, i, covered, consumed)
    requires |consumed'| == |list| && forall j | i < j < |list| ::
      consumed'[j] <==>
        consumed[j] || (!consumed[i] && ctx.rows[list[i]] <= covered && ctx.rows[list[j]] == ctx.rows[list[i]])
    ensures ConsumedOk(ctx, list, i + 1, covered, consumed')
  {
    forall j | i + 1 <= j < |list|
      ensures consumed'[j] <==> ctx.rows[list[j]] <= covered && SeenRow(ctx, list, i + 1, ctx.rows[list[j]]) {
      SeenNext(ctx, list, i, ctx.rows[list[j]]);
      assert consumed[i] <==> ctx.rows[list[i]] <= covered && SeenRow(ctx, list, i, ctx.rows[list[i]]);
    }
  }

  lemma SeenNext(ctx: Context, list: seq<nat>, i: nat, r: set<nat>)
    requires (forall l | 0 <= l < |list| :: list[l] < |ctx.rows|) && i < |list|
    ensures SeenRow(ctx, list, i + 1, r) <==> SeenRow(ctx, list, i, r) || ctx.rows[list[i]] == r
  {
    if SeenRow(ctx, list, i + 1, r) {
      var k :| 0 <= k < i + 1 && k < |list| && ctx.rows[list[k]] == r;
    }
  }

  /** The objects behind object i that share its row, and those whose rows include it. */
  method Collect(ctx: Context, list: seq<nat>, ghost e: set<nat>, i: nat, ghost covered: set<nat>, consumed0: seq<bool>)
      returns (ext: set<nat>, rext: set<nat>, consumed: seq<bool>)
    requires ctx.Valid() && Listing(ctx, e, list) && (exists a :: 0 <= a < |ctx.cols| && ctx.cols[a] == e)
    requires i < |list| && ConsumedOk(ctx, list, i, covered, consumed0) && !consumed0[i] && ctx.rows[list[i]] <= covered
    ensures ext == ctx.Extent(ctx.rows[list[i]]) && rext == ObjsWith(ctx, ext)
    ensures ConsumedOk(ctx, list, i + 1, covered, consumed)
  {
    hide Context.Valid, Context.Extent, Gathered, SeenRow, NoRepeats;
    ext, rext, consumed := {list[i]}, {list[i]}, consumed0;
    GatherFirst(ctx, list, i, false);
    GatherFirst(ctx, list, i, true);
    assert forall l | 0 <= l < |list| :: list[l] < |ctx.rows|;
    assert |consumed| == |list|;
    hide ConsumedOk, Listing, ObjsWith;
    for j := i + 1 to |list|
      invariant Gathered(ctx, list, i, j, ext, false) && Gathered(ctx, list, i, j, rext, true)
      invariant |consumed| == |list| && forall l | j <= l < |list| :: consumed[l] == consumed0[l]
      invariant forall l | i < l < j :: consumed[l] <==> consumed0[l] || ctx.rows[list[l]] == ctx.rows[list[i]]
    {
      NextConsumed(ctx, list, e, i, covered, consumed0, j);
      var taken;
      ext, rext, taken := Absorb(ctx, list, i, j, ext, rext, consumed[j]);
      consumed := consumed[j := taken];
    }
    GatheredAll(ctx, list, e, i, covered, consumed0, ext, false);
    GatheredAll(ctx, list, e, i, covered, consumed0, rext, true);
    ConsumedNext(ctx, list, i, covered, consumed0, consumed);
  }

  lemma NextConsumed(ctx: Context, list: seq<nat>, e: set<nat>, i: nat, covered: set<nat>, consumed: seq<bool>, j: nat)
    requires Listing(ctx, e, list) && ConsumedOk(ctx, list, i, covered, consumed) && i <= j < |list|
    requires !consumed[i] && ctx.rows[list[i]] <= covered
    ensures consumed[j] ==> !(ctx.rows[list[i]] <= ctx.rows[list[j]])
  {
    if ctx.rows[list[i]] <= ctx.rows[list[j]] { NotConsumedAbove(ctx, list, e, i, covered, consumed, j); }
  }

  /** Object j joins the extent when its row includes that of object i, and is consumed when
      the rows are equal; what was consumed before is passed over. */
  method Absorb(ctx: Context, list: seq<nat>, i: nat, j: nat, ext0: set<nat>, rext0: set<nat>, consumed: bool)
      returns (ext: set<nat>, rext: set<nat>, taken: bool)
    requires (forall l | 0 <= l < |list| :: list[l] < |ctx.rows|) && i < j < |list|
    requires Gathered(ctx, list, i, j, ext0, false) && Gathered(ctx, list, i, j, rext0, true)
    requires consumed ==> !(ctx.rows[list[i]] <= ctx.rows[list[j]])
    ensures Gathered(ctx, list, i, j + 1, ext, false) && Gathered(ctx, list, i, j + 1, rext, true)
    ensures taken <==> consumed || ctx.rows[list[j]] == ctx.rows[list[i]]
  {
    hide Gathered;
    ext, rext, taken := ext0, rext0, consumed;
    GatherMore(ctx, list, i, j, ext, false);
    GatherMore(ctx, list, i, j, rext, true);
    if consumed {
      return;
    }
    var oj, assoc := list[j], ctx.rows[list[i]];
    SubsetCardEq(assoc, ctx.rows[oj]);
    if |ctx.rows[oj]| == |assoc| {
      if ctx.rows[oj] == assoc {
        ext, rext, taken := ext + {oj}, rext + {oj}, true;
      }
    } else if assoc <= ctx.rows[oj] {
      ext := ext + {oj};
    }
  }

  lemma SubsetCardEq(s: set<nat>, t: set<nat>)
    ensures s <= t && |s| == |t| ==> s == t
  {
    if s <= t { SubsetCard(s, t); }
  }
}
