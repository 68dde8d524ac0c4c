/** The columns of Ceres, the largest first, in blocks of one size; equal columns are merged. */
module CeresBlocks {
  import opened FiniteSets
  import opened FormalContext
  import opened CeresTheory
  import BucketSort

  /** A concept before it is inserted. */
  datatype PreConcept = PreConcept(ext: set<nat>, intent: set<nat>, rext: set<nat>, rint: set<nat>)

  /** All attributes, the largest columns first. */
  ghost predicate Sorted(ctx: Context, attr: seq<nat>) {
    && |attr| == |ctx.cols| && NoRepeats(attr) && (forall p | 0 <= p < |attr| :: attr[p] < |ctx.cols|)
    && (forall a: nat | a < |ctx.cols| :: a in attr)
    && forall p, q | 0 <= p <= q < |attr| :: |ctx.cols[attr[q]]| <= |ctx.cols[attr[p]]|
  }

  /** The column at n is smaller than the one before it. */
  ghost predicate Narrows(ctx: Context, attr: seq<nat>, n: nat)
    requires 0 < n < |attr|
  {
    attr[n] < |ctx.cols| && attr[n - 1] < |ctx.cols| && |ctx.cols[attr[n]]| < |ctx.cols[attr[n - 1]]|
  }

  lemma BlockRange(ctx: Context, attr: seq<nat>, start: nat, end: nat)
    requires IsBlock(ctx, attr, start, end)
    ensures start < end <= |attr|
  {}

  lemma SortedSize(ctx: Context, attr: seq<nat>, tab: seq<PreConcept>, done: seq<bool>)
    requires Fresh(ctx, attr, tab, done, 0)
    ensures |tab| == |attr| == |done|
  {}

  /** From start to end the columns have one size, and no others do. */
  ghost predicate IsBlock(ctx: Context, attr: seq<nat>, start: nat, end: nat) {
    && start < end <= |attr| && (forall p | 0 <= p < |attr| :: attr[p] < |ctx.cols|)
    && forall p | 0 <= p < |attr| :: start <= p < end <==> |ctx.cols[attr[p]]| == |ctx.cols[attr[start]]|
  }

  /** The attributes from start to n with column e. */
  ghost function SameColumn(ctx: Context, attr: seq<nat>, start: nat, n: nat, e: set<nat>): set<nat>
    requires n <= |attr| && forall p | 0 <= p < |attr| :: attr[p] < |ctx.cols|
  {
    set p | start <= p < n && ctx.cols[attr[p]] == e :: attr[p]
  }

  /** An entry that stands for a column and all equal ones from start to n. */
  ghost predicate Stands(ctx: Context, attr: seq<nat>, tab: seq<PreConcept>, start: nat, n: nat, p: nat)
    requires n <= |attr| == |tab| && p < |attr| && forall p | 0 <= p < |attr| :: attr[p] < |ctx.cols|
  {
    var e := ctx.cols[attr[p]];
    tab[p] == PreConcept(e, SameColumn(ctx, attr, start, n, e), {}, SameColumn(ctx, attr, start, n, e))
  }

  ghost predicate MergedAway(ctx: Context, attr: seq<nat>, done: seq<bool>, start: nat, p: nat)
    requires p < |attr| == |done| && forall p | 0 <= p < |attr| :: attr[p] < |ctx.cols|
  {
    exists q :: start <= q < p && !done[q] && ctx.cols[attr[q]] == ctx.cols[attr[p]]
  }

  /** From start to n, entries with equal columns have been merged into the first of them; the
      entries from n to end are as they were. */
  ghost predicate BlockMerged(ctx: Context, attr: seq<nat>, tab: seq<PreConcept>, done: seq<bool>, start: nat, n: nat,
                              end: nat) {
    && start <= n <= end <= |attr| == |tab| == |done| && (forall p | 0 <= p < |attr| :: attr[p] < |ctx.cols|)
    && (forall p | start <= p < n :: tab[p].ext == ctx.cols[attr[p]])
    && (forall p | start <= p < n && !done[p] :: Stands(ctx, attr, tab, start, n, p))
    && (forall p | start <= p < n && done[p] :: MergedAway(ctx, attr, done, start, p))
    && (forall p, q | start <= p < q < n && !done[p] && !done[q] :: ctx.cols[attr[p]] != ctx.cols[attr[q]])
    && forall p | n <= p < end :: !done[p] && tab[p] == PreConcept(ctx.cols[attr[p]], {attr[p]}, {}, {attr[p]})
  }

  /** The attributes before the block, and those with the columns treated so far. */
  ghost function CoveredAt(ctx: Context, attr: seq<nat>, done: seq<bool>, start: nat, i: nat): set<nat>
    requires start <= i <= |attr| == |done| && forall p | 0 <= p < |attr| :: attr[p] < |ctx.cols|
  {
    set a: nat | a < |ctx.cols| && (a in attr[..start] || TreatedColumn(ctx, attr, done, start, i, ctx.cols[a]))
  }

  ghost predicate TreatedColumn(ctx: Context, attr: seq<nat>, done: seq<bool>, start: nat, i: nat, e: set<nat>)
    requires start <= i <= |attr| == |done| && forall p | 0 <= p < |attr| :: attr[p] < |ctx.cols|
  {
    exists q :: start <= q < i && !done[q] && ctx.cols[attr[q]] == e
  }

  lemma BlockStart(ctx: Context, attr: seq<nat>, tab: seq<PreConcept>, done: seq<bool>, start: nat, end: nat)
    requires Sorted(ctx, attr) && IsBlock(ctx, attr, start, end) && BlockMerged(ctx, attr, tab, done, start, end, end)
    ensures |done| == |attr| == |tab| && ToSet(attr[..start]) == CoveredAt(ctx, attr, done, start, start)
    ensures forall i | start <= i < end :: |tab[i].ext| == |tab[start].ext|
  {
    forall a | a in attr[..start] ensures a < |ctx.cols| {
      var p :| 0 <= p < start && attr[..start][p] == a;
      assert attr[p] == a;
    }
  }

  /** A column not merged away is the next one, and its entry stands for its whole group. */
  lemma NextInBlock(ctx: Context, attr: seq<nat>, tab: seq<PreConcept>, done: seq<bool>, start: nat, end: nat, i: nat)
    requires Sorted(ctx, attr) && IsBlock(ctx, attr, start, end) && BlockMerged(ctx, attr, tab, done, start, end, end)
      && start <= i < end
    ensures |done| == |attr| == |tab|
    ensures done[i] ==> CoveredAt(ctx, attr, done, start, i + 1) == CoveredAt(ctx, attr, done, start, i)
    ensures !done[i] ==> Frontier(ctx, CoveredAt(ctx, attr, done, start, i), tab[i].ext)
    ensures !done[i] ==> tab[i].intent == tab[i].rint == AttrsIn(ctx, ctx.Attributes(), tab[i].ext) && tab[i].rext == {}
    ensures !done[i] ==> CoveredAt(ctx, attr, done, start, i + 1) == CoveredAt(ctx, attr, done, start, i) + tab[i].rint
  {
    var e := ctx.cols[attr[i]];
    TreatedNext(ctx, attr, done, start, i);
    if !done[i] {
      WholeGroup(ctx, attr, start, end, i);
      assert Stands(ctx, attr, tab, start, end, i);
      IsFrontier(ctx, attr, tab, done, start, end, i);
    } else {
      assert MergedAway(ctx, attr, done, start, i);
    }
    hide Sorted, BlockMerged, IsBlock, SameColumn, Frontier;
  }

  lemma TreatedNext(ctx: Context, attr: seq<nat>, done: seq<bool>, start: nat, i: nat)
    requires start <= i < |attr| == |done| && forall p | 0 <= p < |attr| :: attr[p] < |ctx.cols|
    ensures forall e ::
      TreatedColumn(ctx, attr, done, start, i + 1, e) <==>
        TreatedColumn(ctx, attr, done, start, i, e) || (!done[i] && e == ctx.cols[attr[i]])
  {
    var n := i + 1;
    forall e ensures TreatedColumn(ctx, attr, done, start, n, e)
      <==> TreatedColumn(ctx, attr, done, start, i, e) || (!done[i] && e == ctx.cols[attr[i]]) {
      if TreatedColumn(ctx, attr, done, start, n, e) {
        var q :| start <= q < n && !done[q] && ctx.cols[attr[q]] == e;
      }
    }
  }

  lemma WholeGroup(ctx: Context, attr: seq<nat>, start: nat, end: nat, i: nat)
    requires Sorted(ctx, attr) && IsBlock(ctx, attr, start, end) && start <= i < end
    ensures SameColumn(ctx, attr, start, end, ctx.cols[attr[i]]) == AttrsIn(ctx, ctx.Attributes(), ctx.cols[attr[i]])
  {
    var e := ctx.cols[attr[i]];
    forall a | a in AttrsIn(ctx, ctx.Attributes(), e) ensures a in SameColumn(ctx, attr, start, end, e) {
      assert a in attr;
      var p :| 0 <= p < |attr| && attr[p] == a;
      assert |ctx.cols[attr[p]]| == |ctx.cols[attr[start]]|;
    }
  }

  lemma IsFrontier(ctx: Context, attr: seq<nat>, tab: seq<PreConcept>, done: seq<bool>, start: nat, end: nat, i: nat)
    requires Sorted(ctx, attr) && IsBlock(ctx, attr, start, end) && BlockMerged(ctx, attr, tab, done, start, end, end)
      && start <= i < end && !done[i]
    ensures Frontier(ctx, CoveredAt(ctx, attr, done, start, i), ctx.cols[attr[i]])
  {
    var e, covered := ctx.cols[attr[i]], CoveredAt(ctx, attr, done, start, i);
    forall a | a in covered && a < |ctx.cols| ensures |e| <= |ctx.cols[a]| && ctx.cols[a] != e {
      if a in attr[..start] {
        var p :| 0 <= p < start && attr[..start][p] == a;
        assert attr[p] == a && |ctx.cols[attr[start]]| <= |ctx.cols[attr[p]]|;
      } else {
        assert TreatedColumn(ctx, attr, done, start, i, ctx.cols[a]);
      }
    }
    forall a: nat | a < |ctx.cols| && a !in covered ensures |ctx.cols[a]| <= |e| {
      assert a in attr;
      var p :| 0 <= p < |attr| && attr[p] == a;
      PrefixHas(attr, start, p);
      assert |ctx.cols[attr[p]]| <= |ctx.cols[attr[start]]|;
    }
  }

  lemma PrefixHas(attr: seq<nat>, n: nat, p: nat)
    requires p < |attr| && n <= |attr|
    ensures p < n ==> attr[p] in attr[..n]
  {
    if p < n { assert attr[..n][p] == attr[p]; }
  }

  lemma PrefixAt(attr: seq<nat>, n: nat, a: nat) returns (p: nat)
    requires n <= |attr| && a in attr[..n]
    ensures p < n && attr[p] == a
  {
    p :| 0 <= p < n && attr[..n][p] == a;
  }

  lemma BlockCovered(ctx: Context, attr: seq<nat>, tab: seq<PreConcept>, done: seq<bool>, start: nat, end: nat)
    requires Sorted(ctx, attr) && IsBlock(ctx, attr, start, end) && BlockMerged(ctx, attr, tab, done, start, end, end)
    ensures CoveredAt(ctx, attr, done, start, end) == ToSet(attr[..end])
  {
    forall a: nat ensures a in CoveredAt(ctx, attr, done, start, end) <==> a in attr[..end] {
      if a in attr[..end] { CoveredBefore(ctx, attr, tab, done, start, end, a); }
      if a in CoveredAt(ctx, attr, done, start, end) { CoveredIsBefore(ctx, attr, tab, done, start, end, a); }
    }
  }

  lemma CoveredBefore(ctx: Context, attr: seq<nat>, tab: seq<PreConcept>, done: seq<bool>, start: nat, end: nat, a: nat)
    requires Sorted(ctx, attr) && IsBlock(ctx, attr, start, end) && BlockMerged(ctx, attr, tab, done, start, end, end)
      && a in attr[..end]
    ensures a in CoveredAt(ctx, attr, done, start, end)
  {
    var p := PrefixAt(attr, end, a);
    PrefixHas(attr, start, p);
    if start <= p && done[p] { assert MergedAway(ctx, attr, done, start, p); }
  }

  lemma CoveredIsBefore(ctx: Context, attr: seq<nat>, tab: seq<PreConcept>, done: seq<bool>, start: nat, end: nat,
                        a: nat)
    requires Sorted(ctx, attr) && IsBlock(ctx, attr, start, end) && BlockMerged(ctx, attr, tab, done, start, end, end)
    requires a in CoveredAt(ctx, attr, done, start, end)
    ensures a in attr[..end]
  {
    assert a in attr;
    var p: nat :| p < |attr| && attr[p] == a;
    PrefixHas(attr, end, p);
    if a in attr[..start] {
      var q := PrefixAt(attr, start, a);
      PrefixHas(attr, end, q);
    } else {
      var q :| start <= q < end && !done[q] && ctx.cols[attr[q]] == ctx.cols[a];
    }
  }

  // ---- merging equal columns ----

  lemma StandsMore(ctx: Context, attr: seq<nat>, start: nat, n: nat, e: set<nat>)
    requires start <= n < |attr| && forall p | 0 <= p < |attr| :: attr[p] < |ctx.cols|
    ensures SameColumn(ctx, attr, start, n + 1, e) == SameColumn(ctx, attr, start, n, e) + if ctx.cols[attr[n]] == e
      then {attr[n]} else {}
  {}

  /** Entry n joins the first entry with its column, if there is one before it. */
  method MergeInto(tab0: seq<PreConcept>, done0: seq<bool>, start: nat, n: nat, ghost ctx: Context,
                   ghost attr: seq<nat>, ghost end: nat)
      returns (tab: seq<PreConcept>, done: seq<bool>)
    requires BlockMerged(ctx, attr, tab0, done0, start, n, end) && n < end
    ensures BlockMerged(ctx, attr, tab, done, start, n + 1, end) && |tab| == |tab0| == |attr| == |done|
    ensures forall p | 0 <= p < |attr| && !(start <= p <= n) :: tab[p] == tab0[p] && done[p] == done0[p]
  {
    hide Stands, MergedAway;
    tab, done := tab0, done0;
    for i := start to n
      invariant |tab| == |tab0| && |done| == |done0| && forall p | 0 <= p < |tab|
        && !(start <= p < i) :: tab[p] == tab0[p]
      invariant forall p | 0 <= p < |done| && p != n :: done[p] == done0[p]
      invariant forall p | start <= p < i :: tab[p] == Joined(tab0[p], tab0[n], !done0[p])
      invariant done[n] <==> exists p :: start <= p < i && !done0[p] && tab0[p].ext == tab0[n].ext
    {
      if !done[i] && tab[i].ext == tab[n].ext {
        tab := tab[i := tab[i].(intent := tab[i].intent + tab[n].intent, rint := tab[i].rint + tab[n].intent)];
        done := done[n := true];
      }
    }
    MergedMore(ctx, attr, tab0, done0, start, n, end, tab, done);
  }

  function Joined(p: PreConcept, q: PreConcept, alive: bool): PreConcept {
    if alive && p.ext == q.ext then p.(intent := p.intent + q.intent, rint := p.rint + q.intent) else p
  }

  lemma MergedMore(ctx: Context, attr: seq<nat>, tab0: seq<PreConcept>, done0: seq<bool>, start: nat, n: nat,
                   end: nat, tab: seq<PreConcept>, done: seq<bool>)
    requires BlockMerged(ctx, attr, tab0, done0, start, n, end) && n < end && |tab| == |tab0| && |done| == |done0|
    requires forall p | 0 <= p < |tab| && !(start <= p < n) :: tab[p] == tab0[p]
    requires forall p | 0 <= p < |done| && p != n :: done[p] == done0[p]
    requires forall p | start <= p < n :: tab[p] == Joined(tab0[p], tab0[n], !done0[p])
    requires done[n] <==> exists p :: start <= p < n && !done0[p] && tab0[p].ext == tab0[n].ext
    ensures BlockMerged(ctx, attr, tab, done, start, n + 1, end)
  {
    hide SameColumn, Stands, MergedAway;
    var m := n + 1;
    forall p | start <= p < m && !done[p] ensures Stands(ctx, attr, tab, start, m, p) {
      if p == n { NoneBefore(ctx, attr, tab0, done0, start, n, end); }
      StandsOn(ctx, attr, tab0, tab, start, n, p, !done0[p]);
    }
    forall p | start <= p < m && done[p] ensures MergedAway(ctx, attr, done, start, p) {
      if p < n {
        AwayStays(ctx, attr, done0, done, start, n, p);
      } else {
        var q :| start <= q < n && !done0[q] && tab0[q].ext == tab0[n].ext;
        IsAway(ctx, attr, done, start, n, q);
      }
    }
  }

  lemma StandsOn(ctx: Context, attr: seq<nat>, tab0: seq<PreConcept>, tab: seq<PreConcept>, start: nat, n: nat,
                 p: nat, alive: bool)
    requires start <= p <= n < |attr| == |tab| == |tab0| && forall p | 0 <= p < |attr| :: attr[p] < |ctx.cols|
    requires tab0[n] == PreConcept(ctx.cols[attr[n]], {attr[n]}, {}, {attr[n]}) && alive
    requires if p < n then Stands(ctx, attr, tab0, start, n, p) && tab[p] == Joined(tab0[p], tab0[n], alive)
      else tab[p] == tab0[p] && SameColumn(ctx, attr, start, n, ctx.cols[attr[n]]) == {}
    ensures Stands(ctx, attr, tab, start, n + 1, p)
  {
    StandsMore(ctx, attr, start, n, ctx.cols[attr[p]]);
  }

  lemma AwayStays(ctx: Context, attr: seq<nat>, done0: seq<bool>, done: seq<bool>, start: nat, n: nat, p: nat)
    requires p < n < |attr| == |done| == |done0| && forall p | 0 <= p < |attr| :: attr[p] < |ctx.cols|
    requires MergedAway(ctx, attr, done0, start, p) && forall p | 0 <= p < |done| && p != n :: done[p] == done0[p]
    ensures MergedAway(ctx, attr, done, start, p)
  {
    var q :| start <= q < p && !done0[q] && ctx.cols[attr[q]] == ctx.cols[attr[p]];
    assert !done[q];
  }

  lemma IsAway(ctx: Context, attr: seq<nat>, done: seq<bool>, start: nat, p: nat, q: nat)
    requires p < |attr| == |done| && forall p | 0 <= p < |attr| :: attr[p] < |ctx.cols|
    requires start <= q < p && !done[q] && ctx.cols[attr[q]] == ctx.cols[attr[p]]
    ensures MergedAway(ctx, attr, done, start, p)
  {}

  /** A column that no surviving entry has is a new one. */
  lemma NoneBefore(ctx: Context, attr: seq<nat>, tab: seq<PreConcept>, done: seq<bool>, start: nat, n: nat, end: nat)
    requires BlockMerged(ctx, attr, tab, done, start, n, end) && n < end
    requires forall p | start <= p < n && !done[p] :: tab[p].ext != tab[n].ext
    ensures SameColumn(ctx, attr, start, n, ctx.cols[attr[n]]) == {}
  {
    forall p | start <= p < n ensures ctx.cols[attr[p]] != ctx.cols[attr[n]] {
      if done[p] {
        assert MergedAway(ctx, attr, done, start, p);
        var q :| start <= q < p && !done[q] && ctx.cols[attr[q]] == ctx.cols[attr[p]];
        assert tab[q].ext == ctx.cols[attr[q]];
      } else {
        assert tab[p].ext == ctx.cols[attr[p]];
      }
    }
  }

  lemma BlockBegins(ctx: Context, attr: seq<nat>, tab: seq<PreConcept>, done: seq<bool>, start: nat)
    requires Fresh(ctx, attr, tab, done, start) && start < |tab|
    ensures |tab| == |attr| == |done| && BlockMerged(ctx, attr, tab, done, start, start + 1, |attr|)
    ensures Fresh(ctx, attr, tab, done, start + 1) && SameSize(ctx, attr, start, start + 1, |tab[start].ext|)
  {
    var n := start + 1;
    assert SameColumn(ctx, attr, start, n, ctx.cols[attr[start]]) == {attr[start]};
    assert Stands(ctx, attr, tab, start, n, start);
  }

  /** The entries from start on are as they were made. */
  ghost predicate Fresh(ctx: Context, attr: seq<nat>, tab: seq<PreConcept>, done: seq<bool>, start: nat) {
    && |attr| == |tab| == |done| && (forall p | 0 <= p < |attr| :: attr[p] < |ctx.cols|)
    && forall p | start <= p < |attr| :: !done[p] && tab[p] == PreConcept(ctx.cols[attr[p]], {attr[p]}, {}, {attr[p]})
  }

  /** The columns of the size of that at start: equal ones are merged. */
  method MergeBlock(tab0: seq<PreConcept>, done0: seq<bool>, start: nat, ghost ctx: Context, ghost attr: seq<nat>)
      returns (tab: seq<PreConcept>, done: seq<bool>, end: nat)
    requires Sorted(ctx, attr) && Fresh(ctx, attr, tab0, done0, start) && start < |tab0|
    requires 0 < start < |attr| ==> Narrows(ctx, attr, start)
    ensures |tab| == |attr| == |done| && IsBlock(ctx, attr, start, end)
      && BlockMerged(ctx, attr, tab, done, start, end, end)
    ensures Fresh(ctx, attr, tab, done, end) && (end < |attr| ==> Narrows(ctx, attr, end))
  {
    BlockBegins(ctx, attr, tab0, done0, start);
    hide Sorted, Fresh, BlockMerged, SameSize, IsBlock, Narrows;
    tab, done := tab0, done0;
    var sizeToDo := |tab[start].ext|;
    end := start + 1;
    while end < |tab| && |tab[end].ext| == sizeToDo
      invariant start < end <= |tab| == |attr| == |done|
      invariant BlockMerged(ctx, attr, tab, done, start, end, |attr|) && Fresh(ctx, attr, tab, done, end)
      invariant SameSize(ctx, attr, start, end, sizeToDo)
      decreases |tab| - end
    {
      ghost var tab1, done1 := tab, done;
      tab, done := MergeInto(tab, done, start, end, ctx, attr, |attr|);
      NextOfSize(ctx, attr, tab1, done1, start, end, sizeToDo, tab, done);
      end := end + 1;
    }
    BlockEnds(ctx, attr, tab, done, start, end, sizeToDo);
  }

  /** Columns of one size. */
  ghost predicate SameSize(ctx: Context, attr: seq<nat>, start: nat, end: nat, size: nat) {
    end <= |attr| && forall p | start <= p < end :: attr[p] < |ctx.cols| && |ctx.cols[attr[p]]| == size
  }

  lemma NextOfSize(ctx: Context, attr: seq<nat>, tab: seq<PreConcept>, done: seq<bool>, start: nat, end: nat, size: nat,
                   tab': seq<PreConcept>, done': seq<bool>)
    requires Fresh(ctx, attr, tab, done, end) && SameSize(ctx, attr, start, end, size)
    requires end < |tab| == |tab'| && |done'| == |done| && |tab[end].ext| == size
    requires forall p | 0 <= p < |attr| && !(start <= p <= end) :: tab'[p] == tab[p] && done'[p] == done[p]
    ensures Fresh(ctx, attr, tab', done', end + 1) && SameSize(ctx, attr, start, end + 1, size)
  {}

  lemma BlockEnds(ctx: Context, attr: seq<nat>, tab: seq<PreConcept>, done: seq<bool>, start: nat, end: nat, size: nat)
    requires Sorted(ctx, attr) && Fresh(ctx, attr, tab, done, end) && start < end <= |attr|
      && BlockMerged(ctx, attr, tab, done, start, end, |attr|)
    requires 0 < start < |attr| ==> Narrows(ctx, attr, start)
    requires SameSize(ctx, attr, start, end, size) && (end < |attr| ==> |tab[end].ext| != size)
    ensures IsBlock(ctx, attr, start, end) && BlockMerged(ctx, attr, tab, done, start, end, end)
    ensures end < |attr| ==> Narrows(ctx, attr, end)
  {
    forall p | 0 <= p < |attr| ensures start <= p < end <==> |ctx.cols[attr[p]]| == size {
      if p < start { assert |ctx.cols[attr[start - 1]]| <= |ctx.cols[attr[p]]|; }
      if end <= p {
        assert |ctx.cols[attr[p]]| <= |ctx.cols[attr[end]]| <= |ctx.cols[attr[end - 1]]|;
      }
    }
  }

  // ---- the sorted table ----

  method SortedTable(ctx: Context) returns (tab: seq<PreConcept>, done: seq<bool>, ghost attr: seq<nat>)
    requires ctx.Valid()
    ensures Sorted(ctx, attr) && Fresh(ctx, attr, tab, done, 0)
  {
    var k := |ctx.cols|;
    var tab0 := seq(k, a requires 0 <= a < k => PreConcept(ctx.cols[a], {a}, {}, {a}));
    ColumnsWithin(ctx);
    var keys: seq<nat> := seq(k, a requires 0 <= a < k => |tab0[a].ext|);
    var up := BucketSort.Sort(keys, |ctx.rows|);
    tab := seq(k, p requires 0 <= p < k && k == |up| && up[k - 1 - p] < |tab0| => tab0[up[k - 1 - p]]);
    done := seq(k, p => false);
    attr := seq(k, p requires 0 <= p < k && k == |up| => up[k - 1 - p]);
    SortedDown(ctx, keys, up, attr);
  }

  lemma ColumnsWithin(ctx: Context)
    requires ctx.Valid()
    ensures forall a | 0 <= a < |ctx.cols| :: |ctx.cols[a]| <= |ctx.rows|
  {
    forall a | 0 <= a < |ctx.cols| ensures |ctx.cols[a]| <= |ctx.rows| {
      SubsetCard(ctx.cols[a], ctx.Objects());
      RangeCard(|ctx.rows|);
    }
  }

  lemma SortedDown(ctx: Context, keys: seq<nat>, up: seq<nat>, attr: seq<nat>)
    requires |keys| == |ctx.cols| && (forall a | 0 <= a < |keys| :: keys[a] == |ctx.cols[a]|)
      && BucketSort.IsSortedOrder(keys, up)
    requires |attr| == |up| && forall p | 0 <= p < |attr| :: attr[p] == up[|up| - 1 - p]
    ensures Sorted(ctx, attr)
  {
    forall a: nat | a < |ctx.cols| ensures a in attr {
      assert a in up;
      var p :| 0 <= p < |up| && up[p] == a;
      assert attr[|up| - 1 - p] == a;
    }
  }
}
