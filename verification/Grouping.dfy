/** Merging reference sets that hold equal values, block by block of equal cardinality, with
    a hash table per block. */
module Grouping {
  import opened FiniteSets
  import opened OpenTable
  import Sorting

  /** The objects or attributes a class stands for, and the classes it is related to. */
  datatype RefSet = RefSet(refs: set<nat>, values: set<nat>)

  /** The references of all sets from lo to hi with the given values. */
  ghost function Gather(sets: seq<RefSet>, v: set<nat>, lo: nat, hi: nat): set<nat>
    requires lo <= hi <= |sets|
  {
    set l: nat, r | lo <= l < hi && sets[l].values == v && r in sets[l].refs :: r
  }

  ghost predicate HasValues(sets: seq<RefSet>, v: set<nat>, lo: nat, hi: nat)
    requires lo <= hi <= |sets|
  {
    exists l :: lo <= l < hi && sets[l].values == v
  }

  /** One class for each set of values that occurs, with all the references to it. */
  ghost predicate IsGrouping(sets: seq<RefSet>, classes: seq<RefSet>) {
    && (forall c, d | 0 <= c < d < |classes| :: classes[c].values != classes[d].values)
    && (forall v :: HasValues(sets, v, 0, |sets|) <==> HasValues(classes, v, 0, |classes|))
    && forall c | 0 <= c < |classes| :: classes[c].refs == Gather(sets, classes[c].values, 0, |sets|)
  }

  // ---- within a block ----

  /** The sets lo, ..., i-1 are merged: the first one with its values is alive and has
      gathered the references of the others. */
  ghost predicate Merged(sets: seq<RefSet>, data: seq<RefSet>, dead: seq<bool>, lo: nat, i: nat) {
    && |data| == |dead| == |sets| && lo <= i <= |sets|
    && (forall j | 0 <= j < |sets| :: data[j].values == sets[j].values)
    && (forall j | lo <= j < i :: dead[j] <==> HasValues(sets, sets[j].values, lo, j))
    && (forall j | lo <= j < i && !dead[j] :: data[j].refs == Gather(sets, sets[j].values, lo, i))
  }

  lemma GatherStep(sets: seq<RefSet>, v: set<nat>, lo: nat, i: nat)
    requires lo <= i < |sets|
    ensures Gather(sets, v, lo, i + 1) == Gather(sets, v, lo, i) + (if sets[i].values == v then sets[i].refs else {})
    ensures HasValues(sets, v, lo, i + 1) <==> HasValues(sets, v, lo, i) || sets[i].values == v
    ensures !HasValues(sets, v, lo, i) ==> Gather(sets, v, lo, i) == {}
  {}

  /** Set i joins the one at `found`. */
  lemma JoinStep(sets: seq<RefSet>, data: seq<RefSet>, dead: seq<bool>, lo: nat, i: nat, found: nat)
    requires Merged(sets, data, dead, lo, i) && i < |sets| && lo <= found < i && !dead[found]
    requires sets[found].values == sets[i].values && data[i] == sets[i]
    ensures Merged(sets, data[found := RefSet(data[found].refs + sets[i].refs, data[found].values)], dead[i := true],
                   lo, i + 1)
  {
    var data' := data[found := RefSet(data[found].refs + sets[i].refs, data[found].values)];
    var dead' := dead[i := true];
    GatherStep(sets, sets[i].values, lo, i);
    forall j | lo <= j < i + 1 && !dead'[j] ensures data'[j].refs == Gather(sets, sets[j].values, lo, i + 1) {
      GatherStep(sets, sets[j].values, lo, i);
      if j != found { OnlyOneAlive(sets, data, dead, lo, i, j, found); }
    }
  }

  lemma OnlyOneAlive(sets: seq<RefSet>, data: seq<RefSet>, dead: seq<bool>, lo: nat, i: nat, j: nat, k: nat)
    requires Merged(sets, data, dead, lo, i) && lo <= j < i && lo <= k < i && !dead[j] && !dead[k] && j != k
    ensures sets[j].values != sets[k].values
  {}

  /** Set i is the first one with its values. */
  lemma AloneStep(sets: seq<RefSet>, data: seq<RefSet>, dead: seq<bool>, lo: nat, i: nat)
    requires Merged(sets, data, dead, lo, i) && i < |sets| && data[i] == sets[i] && !dead[i]
    requires forall j | lo <= j < i && !dead[j] :: sets[j].values != sets[i].values
    ensures Merged(sets, data, dead, lo, i + 1)
  {
    NoneAlive(sets, data, dead, lo, i, sets[i].values);
    forall j | lo <= j < i + 1 && !dead[j] ensures data[j].refs == Gather(sets, sets[j].values, lo, i + 1) {
      GatherStep(sets, sets[j].values, lo, i);
    }
  }

  /** Values that occur have an alive set. */
  lemma {:induction false} NoneAlive(sets: seq<RefSet>, data: seq<RefSet>, dead: seq<bool>, lo: nat, i: nat,
                                     v: set<nat>)
    requires Merged(sets, data, dead, lo, i)
    requires forall j | lo <= j < i && !dead[j] :: sets[j].values != v
    ensures !HasValues(sets, v, lo, i)
  {
    hide Gather, HasValues;
    forall k: nat | lo <= k < i ensures sets[k].values != v {
      FirstWith(sets, lo, k);
      var j: nat :| lo <= j <= k && sets[j].values == sets[k].values && !HasValues(sets, sets[j].values, lo, j);
      assert !dead[j];
    }
    NoValues(sets, v, lo, i);
  }

  lemma NoValues(sets: seq<RefSet>, v: set<nat>, lo: nat, i: nat)
    requires lo <= i <= |sets| && forall k: nat | lo <= k < i :: sets[k].values != v
    ensures !HasValues(sets, v, lo, i)
  {}

  /** Some set up to k is the first one with the values of set k. */
  lemma {:induction false} FirstWith(sets: seq<RefSet>, lo: nat, k: nat)
    requires lo <= k < |sets|
    ensures exists j :: lo <= j <= k && sets[j].values == sets[k].values && !HasValues(sets, sets[j].values, lo, j)
  {
    if HasValues(sets, sets[k].values, lo, k) {
      var l: nat :| lo <= l < k && sets[l].values == sets[k].values;
      FirstWith(sets, lo, l);
    }
  }

  /** Merges the sets lo, ..., hi-1. */
  method MergeBlock(sets: seq<RefSet>, lo: nat, hi: nat, hash: set<nat> -> nat, data0: seq<RefSet>, dead0: seq<bool>)
      returns (data: seq<RefSet>, dead: seq<bool>)
    requires lo < hi <= |sets| == |data0| == |dead0|
    requires forall j | 0 <= j < |sets| :: data0[j].values == sets[j].values
    requires forall j | lo <= j < hi :: data0[j] == sets[j] && !dead0[j]
    ensures Merged(sets, data, dead, lo, hi)
    ensures forall j | 0 <= j < |sets| && !(lo <= j < hi) :: data[j] == data0[j] && dead[j] == dead0[j]
  {
    data, dead := data0, dead0;
    var m := hi - lo;
    assert Merged(sets, data, dead, lo, lo);
    if m == 1 {
      AloneStep(sets, data, dead, lo, lo);
      return;
    }
    var cap := 4;
    while cap < 2 * m
      invariant cap >= 4
    {
      cap := cap * 2;
    }
    data, dead := MergeWithTable(sets, lo, hi, cap, hash, data, dead);
  }

  method MergeWithTable(sets: seq<RefSet>, lo: nat, hi: nat, cap: nat, hash: set<nat> -> nat, data0: seq<RefSet>,
                        dead0: seq<bool>)
      returns (data: seq<RefSet>, dead: seq<bool>)
    requires lo < hi <= |sets| == |data0| == |dead0| && cap >= 2 * (hi - lo)
    requires forall j | lo <= j < hi :: data0[j] == sets[j] && !dead0[j]
    requires Merged(sets, data0, dead0, lo, lo)
    ensures Merged(sets, data, dead, lo, hi)
    ensures forall j | 0 <= j < |sets| && !(lo <= j < hi) :: data[j] == data0[j] && dead[j] == dead0[j]
  {
    hide TableOk, Merged, Table.Valid;
    data, dead := data0, dead0;
    var keys := seq(|sets|, j requires 0 <= j < |sets| => sets[j].values);
    var table := new Table(keys, cap, hash);
    assert Entries(table.dist, dead, lo, lo) && Untouched(data0, dead0, data, dead, lo, lo);
    hide Entries, Untouched;
    for i := lo to hi
      invariant fresh(table) && fresh(table.slot) && fresh(table.hsl) && table.keys == keys && table.slot.Length == cap
      invariant table.Valid() && Entries(table.dist, dead, lo, i)
      invariant Merged(sets, data, dead, lo, i) && Untouched(data0, dead0, data, dead, lo, i)
    {
      data, dead := MergeNext(sets, lo, i, table, data0, dead0, data, dead);
    }
    MergedLength(sets, data, dead, lo, hi);
    assert forall j | 0 <= j < |sets| && !(lo <= j < hi) :: data[j] == data0[j] && dead[j] == dead0[j] by {
      UntouchedOutside(data0, dead0, data, dead, lo, hi);
    }
  }

  method MergeNext(ghost sets: seq<RefSet>, ghost lo: nat, i: nat, table: Table, ghost data0: seq<RefSet>,
                   ghost dead0: seq<bool>,
                   data: seq<RefSet>, dead: seq<bool>)
      returns (data': seq<RefSet>, dead': seq<bool>)
    requires table.Valid() && i < |sets| == |table.keys| && Entries(table.dist, dead, lo, i)
      && i - lo < table.slot.Length
    requires forall j | 0 <= j < |sets| :: table.keys[j] == sets[j].values
    requires Merged(sets, data, dead, lo, i) && Untouched(data0, dead0, data, dead, lo, i)
    requires |data0| == |sets| && data0[i] == sets[i] && |dead0| == |data0| && !dead0[i]
    modifies table, table.slot, table.hsl
    ensures table.Valid() && Entries(table.dist, dead', lo, i + 1)
    ensures Merged(sets, data', dead', lo, i + 1) && Untouched(data0, dead0, data', dead', lo, i + 1)
  {
    hide Merged, Entries, Untouched, TableOk;
    EntriesBound(table.dist, dead, lo, i);
    NotTouchedYet(sets, data0, dead0, data, dead, lo, i);
    MergedLength(sets, data, dead, lo, i);
    TableShape(table.keys, table.hash, table.slot[..], table.hsl[..], table.dist);
    ghost var dist0 := table.dist;
    var found := table.FindOrInsert(i);
    data', dead' := MergeOne(sets, lo, i, found, data0, dead0, data, dead, dist0, table.dist);
  }

  /** The entries of the table are the alive sets from lo to i. */
  ghost predicate Entries(dist: map<nat, nat>, dead: seq<bool>, lo: nat, i: nat) {
    lo <= i <= |dead| && |dist| <= i - lo && forall j :: j in dist <==> lo <= j < i && !dead[j]
  }

  ghost predicate Untouched(data0: seq<RefSet>, dead0: seq<bool>, data: seq<RefSet>, dead: seq<bool>, lo: nat, i: nat) {
    && |data| == |data0| == |dead| == |dead0|
    && forall j | 0 <= j < |data| && !(lo <= j < i) :: data[j] == data0[j] && dead[j] == dead0[j]
  }

  lemma UntouchedOutside(data0: seq<RefSet>, dead0: seq<bool>, data: seq<RefSet>, dead: seq<bool>, lo: nat, hi: nat)
    requires Untouched(data0, dead0, data, dead, lo, hi)
    ensures |data| == |data0| == |dead| == |dead0|
    ensures forall j | 0 <= j < |data| && !(lo <= j < hi) :: data[j] == data0[j] && dead[j] == dead0[j]
  {}

  lemma EntriesBound(dist: map<nat, nat>, dead: seq<bool>, lo: nat, i: nat)
    requires Entries(dist, dead, lo, i)
    ensures |dist| <= i - lo && i !in dist
  {}

  lemma NotTouchedYet(sets: seq<RefSet>, data0: seq<RefSet>, dead0: seq<bool>, data: seq<RefSet>, dead: seq<bool>,
                      lo: nat, i: nat)
    requires Untouched(data0, dead0, data, dead, lo, i) && i < |sets| == |data0| == |dead0| && data0[i] == sets[i]
      && !dead0[i]
    ensures |dead| == |data| == |data0| == |dead0| && data[i] == sets[i] && !dead[i]
  {}

  /** Set i joins the entry found, or stays on its own. */
  method MergeOne(ghost sets: seq<RefSet>, ghost lo: nat, i: nat, found: int, ghost data0: seq<RefSet>,
                  ghost dead0: seq<bool>,
                  data: seq<RefSet>, dead: seq<bool>, ghost dist: map<nat, nat>, ghost dist': map<nat, nat>)
      returns (data': seq<RefSet>, dead': seq<bool>)
    requires Merged(sets, data, dead, lo, i) && Entries(dist, dead, lo, i) && Untouched(data0, dead0, data, dead, lo, i)
    requires i < |sets| && data[i] == sets[i] && !dead[i]
    requires found >= 0 ==> found as nat in dist && sets[found].values == sets[i].values && dist' == dist
    requires found < 0 ==> dist'.Keys == dist.Keys + {i} && forall j | j in dist :: sets[j].values != sets[i].values
    ensures Merged(sets, data', dead', lo, i + 1) && Entries(dist', dead', lo, i + 1)
    ensures Untouched(data0, dead0, data', dead', lo, i + 1)
  {
    hide Merged;
    data', dead' := data, dead;
    MergedLength(sets, data, dead, lo, i);
    if found >= 0 {
      FoundEntry(sets, data, dead, dist, lo, i, found);
      JoinStep(sets, data, dead, lo, i, found);
      EntriesJoin(dist, dead, lo, i);
      hide Entries;
      data' := data[found := RefSet(data[found].refs + data[i].refs, data[found].values)];
      dead' := dead[i := true];
    } else {
      AliveAreEntries(dist, dead, lo, i);
      hide Entries;
      AloneStep(sets, data, dead, lo, i);
      EntriesAlone(dist, dist', dead, lo, i);
    }
  }

  lemma FoundEntry(sets: seq<RefSet>, data: seq<RefSet>, dead: seq<bool>, dist: map<nat, nat>, lo: nat, i: nat,
                   found: nat)
    requires Merged(sets, data, dead, lo, i) && Entries(dist, dead, lo, i) && found in dist
    ensures lo <= found < i <= |data| && !dead[found] && data[found].values == sets[found].values
  {}

  lemma AliveAreEntries(dist: map<nat, nat>, dead: seq<bool>, lo: nat, i: nat)
    requires Entries(dist, dead, lo, i)
    ensures lo <= i <= |dead| && forall j | lo <= j < i && !dead[j] :: j in dist
  {}

  lemma EntriesJoin(dist: map<nat, nat>, dead: seq<bool>, lo: nat, i: nat)
    requires Entries(dist, dead, lo, i) && i < |dead|
    ensures Entries(dist, dead[i := true], lo, i + 1)
  {}

  lemma EntriesAlone(dist: map<nat, nat>, dist': map<nat, nat>, dead: seq<bool>, lo: nat, i: nat)
    requires Entries(dist, dead, lo, i) && i < |dead| && !dead[i] && dist'.Keys == dist.Keys + {i}
    ensures Entries(dist', dead, lo, i + 1)
  {
    assert |dist'.Keys| <= |dist.Keys| + 1;
    assert forall j :: j in dist' <==> j in dist'.Keys;
  }

  /** Groups and synchronises: the classes of `sets`, and for each element of `sync` the
      classes whose values hold it. */
  method Clarify(sets0: seq<RefSet>, sync: seq<RefSet>, hash: set<nat> -> nat)
      returns (classes: seq<RefSet>, sync': seq<RefSet>)
    requires forall j | 0 <= j < |sets0| :: sets0[j].values <= Range(|sync|)
    ensures IsGrouping(sets0, classes) && Synchronised(classes, sync, sync')
  {
    BySizeIsOrder();
    var sets := Sorting.QSort(sets0, BySize);
    var data, dead := MergeAll(sets, hash);
    classes := Compact(sets, data, dead);
    GroupingPermuted(sets0, sets, classes);
    ClassesInRange(sets0, classes, |sync|);
    sync' := Synchronise(classes, sync);
  }

  /** Merges the blocks of equal cardinality one after the other. */
  method MergeAll(sets: seq<RefSet>, hash: set<nat> -> nat) returns (data: seq<RefSet>, dead: seq<bool>)
    requires Sorting.SortedBy(BySize, sets)
    ensures Merged(sets, data, dead, 0, |sets|)
  {
    var n := |sets|;
    var card := seq(n, j requires 0 <= j < n => |sets[j].values|);
    data, dead := sets, seq(n, j => false);
    var blockStart := 0;
    assert Merged(sets, data, dead, 0, 0);
    hide Merged, Sorting.SortedBy, HasValues, Gather;
    while blockStart < n
      invariant 0 <= blockStart <= n && |data| == |dead| == n
      invariant blockStart == 0 || blockStart == n || card[blockStart - 1] > card[blockStart]
      invariant Merged(sets, data, dead, 0, blockStart)
      invariant forall j | blockStart <= j < n :: data[j] == sets[j] && !dead[j]
    {
      var blockEnd := BlockEnd(card, blockStart);
      BlockBoundary(sets, card, blockStart, blockEnd);
      ghost var data1, dead1 := data, dead;
      MergedShape(sets, data, dead, blockStart);
      data, dead := MergeBlock(sets, blockStart, blockEnd, hash, data, dead);
      MergedLength(sets, data, dead, blockStart, blockEnd);
      BlockDone(sets, card, data1, dead1, data, dead, blockStart, blockEnd);
      blockStart := blockEnd;
    }
  }

  method BlockEnd(card: seq<nat>, blockStart: nat) returns (blockEnd: nat)
    requires blockStart < |card|
    ensures blockStart < blockEnd <= |card| && forall j | blockStart <= j < blockEnd :: card[j] == card[blockStart]
    ensures blockEnd < |card| ==> card[blockEnd] != card[blockStart]
  {
    blockEnd := blockStart + 1;
    while blockEnd < |card| && card[blockEnd] == card[blockStart]
      invariant blockStart < blockEnd <= |card|
      invariant forall j | blockStart <= j < blockEnd :: card[j] == card[blockStart]
    {
      blockEnd := blockEnd + 1;
    }
  }

  lemma BlockBoundary(sets: seq<RefSet>, card: seq<nat>, lo: nat, hi: nat)
    requires |card| == |sets| && (forall j | 0 <= j < |sets| :: card[j] == |sets[j].values|)
      && Sorting.SortedBy(BySize, sets)
    requires lo < hi <= |sets| && (forall j | lo <= j < hi :: card[j] == card[lo])
      && (hi < |sets| ==> card[hi] != card[lo])
    ensures hi < |sets| ==> card[hi - 1] > card[hi]
  {
    if hi < |sets| { assert BySize(sets[hi - 1], sets[hi]); }
  }

  lemma MergedShape(sets: seq<RefSet>, data: seq<RefSet>, dead: seq<bool>, i: nat)
    requires Merged(sets, data, dead, 0, i)
    ensures |data| == |dead| == |sets| && forall j | 0 <= j < |sets| :: data[j].values == sets[j].values
  {}

  lemma MergedLength(sets: seq<RefSet>, data: seq<RefSet>, dead: seq<bool>, lo: nat, i: nat)
    requires Merged(sets, data, dead, lo, i)
    ensures |data| == |dead| == |sets|
  {}

  lemma ClassesInRange(sets: seq<RefSet>, classes: seq<RefSet>, n: nat)
    requires IsGrouping(sets, classes) && forall j | 0 <= j < |sets| :: sets[j].values <= Range(n)
    ensures forall c | 0 <= c < |classes| :: classes[c].values <= Range(n)
  {
    forall c | 0 <= c < |classes| ensures classes[c].values <= Range(n) {
      assert HasValues(classes, classes[c].values, 0, |classes|);
      assert HasValues(sets, classes[c].values, 0, |sets|);
    }
  }

  predicate BySize(x: RefSet, y: RefSet) {
    |x.values| >= |y.values|
  }

  lemma BySizeIsOrder()
    ensures Sorting.TotalOrder(BySize)
  {}

  ghost predicate Synchronised(classes: seq<RefSet>, sync: seq<RefSet>, sync': seq<RefSet>) {
    && |sync'| == |sync| && (forall k | 0 <= k < |sync| :: sync'[k].refs == sync[k].refs)
    && forall k | 0 <= k < |sync| :: forall c: nat :: c in sync'[k].values <==> c < |classes| && k in classes[c].values
  }

  lemma BlockDone(sets: seq<RefSet>, card: seq<nat>, data: seq<RefSet>, dead: seq<bool>, data': seq<RefSet>,
                  dead': seq<bool>, lo: nat, hi: nat)
    requires |card| == |sets| && (forall j | 0 <= j < |sets| :: card[j] == |sets[j].values|)
      && Sorting.SortedBy(BySize, sets)
    requires lo < hi <= |sets| && (lo == 0 || card[lo - 1] > card[lo]) && forall j | lo <= j < hi :: card[j] == card[lo]
    requires Merged(sets, data, dead, 0, lo) && Merged(sets, data', dead', lo, hi)
    requires forall j | 0 <= j < |sets| && !(lo <= j < hi) :: data'[j] == data[j] && dead'[j] == dead[j]
    ensures Merged(sets, data', dead', 0, hi)
  {
    forall j | 0 <= j < hi
      ensures dead'[j] <==> HasValues(sets, sets[j].values, 0, j)
      ensures !dead'[j] ==> data'[j].refs == Gather(sets, sets[j].values, 0, hi)
    {
      OtherBlock(sets, card, lo, hi, j);
    }
  }

  /** Equal values have equal size: they are all in one block. */
  lemma OtherBlock(sets: seq<RefSet>, card: seq<nat>, lo: nat, hi: nat, j: nat)
    requires |card| == |sets| && (forall j | 0 <= j < |sets| :: card[j] == |sets[j].values|)
      && Sorting.SortedBy(BySize, sets)
    requires lo < hi <= |sets| && (lo == 0 || card[lo - 1] > card[lo])
      && (forall j | lo <= j < hi :: card[j] == card[lo]) && j < hi
    ensures j < lo ==> Gather(sets, sets[j].values, 0, hi) == Gather(sets, sets[j].values, 0, lo)
    ensures j >= lo ==> Gather(sets, sets[j].values, 0, hi) == Gather(sets, sets[j].values, lo, hi)
    ensures j >= lo ==> (HasValues(sets, sets[j].values, 0, j) <==> HasValues(sets, sets[j].values, lo, j))
  {
    forall k | 0 <= k < lo ensures card[k] > card[lo] {
      if k < lo - 1 { assert BySize(sets[k], sets[lo - 1]); }
    }
  }

  method Compact(sets: seq<RefSet>, data: seq<RefSet>, dead: seq<bool>) returns (classes: seq<RefSet>)
    requires Merged(sets, data, dead, 0, |sets|)
    ensures IsGrouping(sets, classes)
  {
    classes := [];
    for i := 0 to |sets|
      invariant forall c, d | 0 <= c < d < |classes| :: classes[c].values != classes[d].values
      invariant forall c | 0 <= c < |classes| :: HasValues(sets, classes[c].values, 0, i)
      invariant forall c | 0 <= c < |classes| :: classes[c].refs == Gather(sets, classes[c].values, 0, |sets|)
      invariant forall v :: HasValues(sets, v, 0, i) ==> HasValues(classes, v, 0, |classes|)
    {
      ghost var before := classes;
      if !dead[i] {
        classes := classes + [data[i]];
      }
      forall v ensures HasValues(sets, v, 0, i + 1) ==> HasValues(classes, v, 0, |classes|) {
        CompactStep(sets, data, dead, before, classes, i, v);
      }
      forall c | 0 <= c < |classes| ensures HasValues(sets, classes[c].values, 0, i + 1) {
        GatherStep(sets, classes[c].values, 0, i);
      }
    }
  }

  lemma CompactStep(sets: seq<RefSet>, data: seq<RefSet>, dead: seq<bool>, before: seq<RefSet>, classes: seq<RefSet>,
                    i: nat, v: set<nat>)
    requires Merged(sets, data, dead, 0, |sets|) && i < |sets| && classes == if dead[i] then before
      else before + [data[i]]
    requires HasValues(sets, v, 0, i) ==> HasValues(before, v, 0, |before|)
    requires dead[i] ==> HasValues(before, sets[i].values, 0, |before|)
    ensures HasValues(sets, v, 0, i + 1) ==> HasValues(classes, v, 0, |classes|)
  {
    GatherStep(sets, v, 0, i);
    if HasValues(before, v, 0, |before|) {
      var l :| 0 <= l < |before| && before[l].values == v;
      assert classes[l] == before[l];
    }
    if !dead[i] && sets[i].values == v { assert classes[|before|].values == v; }
  }

  method Synchronise(classes: seq<RefSet>, sync: seq<RefSet>) returns (sync': seq<RefSet>)
    requires forall c | 0 <= c < |classes| :: classes[c].values <= Range(|sync|)
    ensures Synchronised(classes, sync, sync')
  {
    sync' := seq(|sync|, k requires 0 <= k < |sync| => RefSet(sync[k].refs, {}));
    for i := 0 to |classes|
      invariant |sync'| == |sync| && forall k | 0 <= k < |sync| :: sync'[k].refs == sync[k].refs
      invariant forall k | 0 <= k < |sync| :: forall c: nat :: c in sync'[k].values <==> c < i && k in classes[c].values
    {
      for k := 0 to |sync|
        invariant |sync'| == |sync| && forall l | 0 <= l < |sync| :: sync'[l].refs == sync[l].refs
        invariant forall l | 0 <= l < |sync| ::
          forall c: nat :: c in sync'[l].values <==> (c < i || (c == i && l < k)) && l in classes[c].values
      {
        if k in classes[i].values {
          sync' := sync'[k := RefSet(sync'[k].refs, sync'[k].values + {i})];
        }
      }
    }
  }

  /** The classes do not depend on the order of the sets. */
  lemma GroupingPermuted(sets0: seq<RefSet>, sets: seq<RefSet>, classes: seq<RefSet>)
    requires multiset(sets) == multiset(sets0) && IsGrouping(sets, classes)
    ensures IsGrouping(sets0, classes)
  {
    Sorting.SameMembers(sets, sets0);
    forall v ensures HasValues(sets0, v, 0, |sets0|) <==> HasValues(sets, v, 0, |sets|) {
      SomewhereElse(sets0, sets, v);
      SomewhereElse(sets, sets0, v);
    }
    forall c | 0 <= c < |classes| ensures classes[c].refs == Gather(sets0, classes[c].values, 0, |sets0|) {
      GatherElse(sets0, sets, classes[c].values);
      GatherElse(sets, sets0, classes[c].values);
    }
  }

  lemma SomewhereElse(s: seq<RefSet>, t: seq<RefSet>, v: set<nat>)
    requires forall x :: x in s ==> x in t
    ensures HasValues(s, v, 0, |s|) ==> HasValues(t, v, 0, |t|)
  {
    if HasValues(s, v, 0, |s|) {
      var l :| 0 <= l < |s| && s[l].values == v;
      assert s[l] in t;
    }
  }

  lemma GatherElse(s: seq<RefSet>, t: seq<RefSet>, v: set<nat>)
    requires forall x :: x in s ==> x in t
    ensures Gather(s, v, 0, |s|) <= Gather(t, v, 0, |t|)
  {
    forall r | r in Gather(s, v, 0, |s|) ensures r in Gather(t, v, 0, |t|) {
      var l :| 0 <= l < |s| && s[l].values == v && r in s[l].refs;
      assert s[l] in t;
      var k :| 0 <= k < |t| && t[k] == s[l];
    }
  }
}
